/** The receiving side of a transfer: the per-connection state machine of
    `handleIncomingConnection`, fed one socket read at a time.
    The socket and the file write stream are not modelled as I/O: the
    stream is the sequence of bytes written to it and its state, the socket
    is its state. Decoding a read as UTF-8 (`data.toString()`) and
    `JSON.parse` are passed in as functions. */
module TransferReceiver {
  import opened JsValue
  import opened TransferFraming

  datatype StreamState = Writing | Ended | Destroyed

  /** `writeStream`: `null`, or a file stream with what was written to it. */
  datatype WriteStream = NoStream | Stream(path: string, written: seq<byte>, state: StreamState)

  datatype SocketState = SocketOpen | SocketEnded | SocketDestroyed | SocketClosed

  /** The events the connection emits, with the fields the code puts in them
      (the progress percentage is left out). */
  datatype RecvEvent =
    | FileReceived(transferId: Prop, fileName: Prop, fileSize: Prop, filePath: string)
    | Progress(transferId: Prop, fileName: Prop, bytesReceived: nat, totalBytes: Prop)
    | Complete(transferId: Prop, fileName: Prop, filePath: string)

  /** The closure variables `metadata`, `writeStream`, `receivedBytes` and
      `buffer`, the socket, whether an exception escaped the data listener,
      and the events emitted so far. */
  datatype Conn = Conn(
    metadata: Json, buffer: string, receivedBytes: nat, stream: WriteStream,
    socket: SocketState, crashed: bool, events: seq<RecvEvent>)

  /** A connection as it is accepted. */
  const Initial: Conn := Conn(JNull, "", 0, NoStream, SocketOpen, false, [])

  /** `path.join(dir, name)`, without its normalisation of the result. */
  function JoinPath(dir: string, name: string): (p: string)
    ensures |p| == |dir| + 1 + |name| && p[|dir|] == '/' && p[|dir| + 1..] == name
  {
    dir + "/" + name
  }

  /** A destroyed or closed socket delivers no more reads, and after an
      uncaught exception the listener is not run again in this model. */
  predicate Live(c: Conn) {
    c.socket != SocketDestroyed && c.socket != SocketClosed && !c.crashed
  }

  /** `n >= size` in JavaScript, for a `size` read from the header:
      `undefined` compares as NaN, `null` as 0, booleans as 0 and 1. */
  predicate AtLeast(n: nat, size: Prop) {
    match size
    case Val(JNum(k)) => n >= k
    case Val(JNull) => true
    case Val(JBool(b)) => n >= (if b then 1 else 0)
    case _ => false
  }

  /** A header the code opens a file for: `type === 'file-metadata'` and a
      string `fileName` (`path.join` throws on anything else). */
  predicate IsFileHeader(m: Json) {
    && StrictEq(Get(m, "type"), Val(JStr("file-metadata")))
    && Get(m, "fileName").Val? && Get(m, "fileName").v.JStr?
  }

  /** `writeStream.write(bytes)`; bytes written after `end` or `destroy`
      are not stored. */
  function Write(s: WriteStream, bytes: seq<byte>): (r: WriteStream)
    requires s.Stream?
    ensures r.Stream? && r.path == s.path && r.state == s.state
    ensures r.written == if s.state == Writing then s.written + bytes else s.written
  {
    if s.state == Writing then s.(written := s.written + bytes) else s
  }

  /** The completion branch: end the stream, emit `transfer-complete` with
      the stream's path, end the socket. */
  function Finish(c: Conn): (r: Conn)
    requires c.stream.Stream?
    ensures r.stream.Stream? && r.stream.written == c.stream.written
    ensures r.events == c.events + [Complete(Get(c.metadata, "transferId"), Get(c.metadata, "fileName"), c.stream.path)]
    ensures r.receivedBytes == c.receivedBytes && r.metadata == c.metadata && r.buffer == c.buffer
  {
    var m := c.metadata;
    c.(stream := c.stream.(state := if c.stream.state == Writing then Ended else c.stream.state),
       events := c.events + [Complete(Get(m, "transferId"), Get(m, "fileName"), c.stream.path)],
       socket := if c.socket == SocketOpen then SocketEnded else c.socket)
  }

  /** The read that completes the header line: `line` is parsed, `rest` is
      what followed the newline. A parse failure, a `null` header (reading
      `.type` throws) or a non-string file name (`path.join` throws) is
      caught and destroys the socket. `checkDone` adds the completion check
      that the code only makes on later reads. */
  function HeaderRead(c: Conn, line: string, rest: string, dir: string,
                      parse: string -> Option<Json>, checkDone: bool): (r: Conn)
    ensures c.receivedBytes <= r.receivedBytes
    ensures c.events <= r.events
  {
    var c1 := c.(buffer := rest);
    match parse(line)
    case None => c1.(socket := SocketDestroyed)
    case Some(m) =>
      var c2 := c1.(metadata := m);
      if m.JNull? then c2.(socket := SocketDestroyed)
      else if !StrictEq(Get(m, "type"), Val(JStr("file-metadata"))) then c2
      else if !IsFileHeader(m) then c2.(socket := SocketDestroyed)
      else OpenFile(c2, dir, checkDone)
  }

  /** The log line after the file is opened prints `fileSize`; a size it
      cannot print throws into the header read's `catch`. */
  predicate SizePrints(m: Json) {
    !PropToStringThrows(Get(m, "fileSize"))
  }

  /** The file-header branch of the header read, on a connection whose
      `metadata` is the header and whose `buffer` is what followed the
      newline: open the file under `dir`, log, emit `file-received`, then
      write and count a non-empty remainder and clear the buffer. When the
      log line throws, the file stays open with nothing written and the
      socket is destroyed. */
  function OpenFile(c: Conn, dir: string, checkDone: bool): (r: Conn)
    requires IsFileHeader(c.metadata)
    ensures c.receivedBytes <= r.receivedBytes
    ensures c.events <= r.events
  {
    var m := c.metadata;
    var rest := c.buffer;
    var path := JoinPath(dir, Get(m, "fileName").v.s);
    if !SizePrints(m) then c.(stream := Stream(path, [], Writing), socket := SocketDestroyed)
    else
    var c3 := c.(stream := Stream(path, [], Writing),
                 events := c.events + [FileReceived(Get(m, "transferId"), Get(m, "fileName"), Get(m, "fileSize"), path)]);
    var c4 := if |rest| > 0
              then c3.(stream := Write(c3.stream, Latin1(rest)),
                       receivedBytes := c.receivedBytes + |Latin1(rest)|, buffer := "")
              else c3;
    if checkDone && AtLeast(c4.receivedBytes, Get(m, "fileSize")) then Finish(c4) else c4
  }

  /** A read once `metadata` is truthy: write it, count it, emit progress,
      and complete once the count reaches the announced size. With no
      stream open (`metadata` was not a file header) `writeStream.write`
      throws out of the listener. */
  function PostHeader(c: Conn, data: seq<byte>): (r: Conn)
    ensures c.receivedBytes <= r.receivedBytes
    ensures c.events <= r.events
  {
    match c.stream
    case NoStream => c.(crashed := true)
    case Stream(_, _, _) =>
      var m := c.metadata;
      var n := c.receivedBytes + |data|;
      var c1 := c.(stream := Write(c.stream, data), receivedBytes := n,
                   events := c.events + [Progress(Get(m, "transferId"), Get(m, "fileName"), n, Get(m, "fileSize"))]);
      if AtLeast(n, Get(m, "fileSize")) then Finish(c1) else c1
  }

  /** The header read replaces the buffer, so what was buffered before it
      does not matter. */
  lemma HeaderReadIgnoresBuffer(c: Conn, b: string, line: string, rest: string, dir: string,
                                parse: string -> Option<Json>, checkDone: bool)
    ensures HeaderRead(c.(buffer := b), line, rest, dir, parse, checkDone) == HeaderRead(c, line, rest, dir, parse, checkDone)
  {
  }

  /** One `data` event, with the completion check where `checkDone` puts it. */
  function StepWith(c: Conn, data: seq<byte>, dir: string, decode: seq<byte> -> string,
                    parse: string -> Option<Json>, checkDone: bool): (r: Conn)
    ensures c.receivedBytes <= r.receivedBytes
    ensures c.events <= r.events
  {
    if !Live(c) then c
    else if !TruthyJson(c.metadata) then
      var buffer := c.buffer + decode(data);
      match SplitHeader(buffer)
      case None => c.(buffer := buffer)
      case Some((line, rest)) => HeaderRead(c, line, rest, dir, parse, checkDone)
    else PostHeader(c, data)
  }

  /** One `data` event as the code handles it. */
  function Step(c: Conn, data: seq<byte>, dir: string, decode: seq<byte> -> string,
                parse: string -> Option<Json>): (r: Conn)
    ensures c.receivedBytes <= r.receivedBytes
    ensures c.events <= r.events
  {
    StepWith(c, data, dir, decode, parse, false)
  }

  /** One `data` event with completion also checked after the header read. */
  function StepFixed(c: Conn, data: seq<byte>, dir: string, decode: seq<byte> -> string,
                     parse: string -> Option<Json>): (r: Conn)
    ensures c.receivedBytes <= r.receivedBytes
    ensures c.events <= r.events
  {
    StepWith(c, data, dir, decode, parse, true)
  }

  /** A sequence of reads on one connection. */
  function Run(c: Conn, chunks: seq<seq<byte>>, dir: string, decode: seq<byte> -> string,
               parse: string -> Option<Json>, checkDone: bool): (r: Conn)
    ensures c.receivedBytes <= r.receivedBytes
    ensures c.events <= r.events
    decreases |chunks|
  {
    if chunks == [] then c
    else Run(StepWith(c, chunks[0], dir, decode, parse, checkDone), chunks[1..], dir, decode, parse, checkDone)
  }

  predicate HasComplete(evs: seq<RecvEvent>) {
    exists i | 0 <= i < |evs| :: evs[i].Complete?
  }

  predicate HasFileReceived(evs: seq<RecvEvent>) {
    exists i | 0 <= i < |evs| :: evs[i].FileReceived?
  }

  /** The events a step added. */
  function Added(before: Conn, after: Conn): seq<RecvEvent>
    requires before.events <= after.events
  {
    after.events[|before.events|..]
  }

  /** While no newline has arrived, a read only grows the buffer: metadata,
      stream, count, socket and events are untouched. */
  lemma BufferingOnly(c: Conn, data: seq<byte>, dir: string, decode: seq<byte> -> string,
                      parse: string -> Option<Json>)
    requires Live(c) && !TruthyJson(c.metadata)
    requires '\n' !in c.buffer + decode(data)
    ensures var r := Step(c, data, dir, decode, parse);
      && r.buffer == c.buffer + decode(data)
      && r.metadata == c.metadata && r.stream == c.stream
      && r.receivedBytes == c.receivedBytes
      && r.socket == c.socket && r.events == c.events
  {
  }

  /** A header line that `JSON.parse` rejects destroys the socket; no file
      is opened and no event is emitted. */
  lemma MalformedHeaderDestroys(c: Conn, data: seq<byte>, dir: string, decode: seq<byte> -> string,
                                parse: string -> Option<Json>)
    requires Live(c) && !TruthyJson(c.metadata)
    requires var s := SplitHeader(c.buffer + decode(data)); s.Some? && parse(s.value.0).None?
    ensures var r := Step(c, data, dir, decode, parse);
      && r.socket == SocketDestroyed
      && !Live(r)
      && r.events == c.events
      && r.stream == c.stream
      && r.metadata == c.metadata
  {
  }

  /** Nothing happens on a connection that is no longer live. */
  lemma {:induction false} RunDead(c: Conn, chunks: seq<seq<byte>>, dir: string, decode: seq<byte> -> string,
                                   parse: string -> Option<Json>, checkDone: bool)
    requires !Live(c)
    ensures Run(c, chunks, dir, decode, parse, checkDone) == c
  {
    if chunks != [] {
      RunDead(StepWith(c, chunks[0], dir, decode, parse, checkDone), chunks[1..], dir, decode, parse, checkDone);
    }
  }

  /** The header-bearing read of a file header: the file is opened under
      the download directory. If the size prints, `file-received` is
      emitted, and whatever followed the newline is written (re-encoded as
      Latin-1), counted by its byte length (one byte per UTF-16 unit), and
      removed from the buffer. If it does not, the socket is destroyed with
      nothing written, counted or emitted. */
  lemma HeaderRemainder(c: Conn, data: seq<byte>, dir: string, decode: seq<byte> -> string,
                        parse: string -> Option<Json>)
    requires Live(c) && !TruthyJson(c.metadata)
    requires var s := SplitHeader(c.buffer + decode(data));
      s.Some? && parse(s.value.0).Some? && IsFileHeader(parse(s.value.0).value)
    ensures var (line, rest) := SplitHeader(c.buffer + decode(data)).value;
      var m := parse(line).value;
      var name := Get(m, "fileName").v.s;
      var r := Step(c, data, dir, decode, parse);
      && r.metadata == m
      && (SizePrints(m) ==>
            && r.buffer == ""
            && r.receivedBytes == c.receivedBytes + |Latin1(rest)|
            && r.stream == Stream(JoinPath(dir, name), Latin1(rest), Writing)
            && r.events == c.events + [FileReceived(Get(m, "transferId"), Get(m, "fileName"), Get(m, "fileSize"), JoinPath(dir, name))]
            && r.socket == c.socket)
      && (!SizePrints(m) ==>
            && r.buffer == rest
            && r.receivedBytes == c.receivedBytes
            && r.stream == Stream(JoinPath(dir, name), [], Writing)
            && r.events == c.events
            && r.socket == SocketDestroyed)
  {
    var (line, rest) := SplitHeader(c.buffer + decode(data)).value;
    StepHeaderCase(c, data, dir, decode, parse, false, line, rest);
    HeaderReadFile(c, line, rest, dir, parse, false);
    assert [] + Latin1(rest) == Latin1(rest);
  }

  /** The code checks for completion only in reads after the header: the
      header-bearing read never emits `transfer-complete`, whatever the
      remainder's length and the announced size. */
  lemma NoCompletionInHeaderRead(c: Conn, data: seq<byte>, dir: string, decode: seq<byte> -> string,
                                 parse: string -> Option<Json>)
    requires Live(c) && !TruthyJson(c.metadata)
    ensures var r := Step(c, data, dir, decode, parse);
      !HasComplete(Added(c, r))
  {
    var r := Step(c, data, dir, decode, parse);
    match SplitHeader(c.buffer + decode(data))
    case None =>
      assert r.events == c.events;
    case Some((line, rest)) =>
      StepHeaderCase(c, data, dir, decode, parse, false, line, rest);
      HeaderReadAddsOnlyFileReceived(c, line, rest, dir, parse);
      assert forall i | 0 <= i < |Added(c, r)| :: Added(c, r)[i] == r.events[|c.events| + i];
  }

  lemma HeaderReadAddsOnlyFileReceived(c: Conn, line: string, rest: string, dir: string,
                                       parse: string -> Option<Json>)
    ensures var r := HeaderRead(c, line, rest, dir, parse, false);
      forall i | |c.events| <= i < |r.events| :: r.events[i].FileReceived?
  {
  }

  /** After the header, a read adds exactly its length to the count, writes
      its bytes to an open stream, emits progress, and emits
      `transfer-complete` exactly when the count reaches the announced size. */
  lemma PostHeaderRead(c: Conn, data: seq<byte>, dir: string, decode: seq<byte> -> string,
                       parse: string -> Option<Json>)
    requires Live(c) && TruthyJson(c.metadata) && c.stream.Stream?
    ensures var r := Step(c, data, dir, decode, parse);
      && r.receivedBytes == c.receivedBytes + |data|
      && r.stream.written == (if c.stream.state == Writing then c.stream.written + data else c.stream.written)
      && Added(c, r)[0] == Progress(Get(c.metadata, "transferId"), Get(c.metadata, "fileName"),
                                    r.receivedBytes, Get(c.metadata, "fileSize"))
      && (HasComplete(Added(c, r)) <==> AtLeast(c.receivedBytes + |data|, Get(c.metadata, "fileSize")))
  {
    var r := Step(c, data, dir, decode, parse);
    var added := Added(c, r);
    if AtLeast(c.receivedBytes + |data|, Get(c.metadata, "fileSize")) {
      assert added[1].Complete?;
    } else {
      assert |added| == 1;
    }
  }

  /** A post-header read on a connection whose header was not a file header
      throws out of the listener (`writeStream` is `null`). */
  lemma PostHeaderWithoutFile(c: Conn, data: seq<byte>, dir: string, decode: seq<byte> -> string,
                              parse: string -> Option<Json>)
    requires Live(c) && TruthyJson(c.metadata) && c.stream.NoStream?
    ensures var r := Step(c, data, dir, decode, parse);
      r.crashed && r.events == c.events && r.receivedBytes == c.receivedBytes
  {
  }

  /** A complete frame in one read: the header and the whole payload (or,
      with an empty payload, a file of size 0). The file is opened and, when
      the size prints, the payload written and counted, but
      `transfer-complete` is not emitted, even when the count already
      reaches the announced size; if no further read arrives, the transfer
      is never reported complete. */
  lemma WholeFrameInOneRead(chunk: seq<byte>, header: string, payload: string, dir: string,
                            decode: seq<byte> -> string, parse: string -> Option<Json>)
    requires decode(chunk) == Frame(header) + payload && '\n' !in header
    requires parse(header).Some? && IsFileHeader(parse(header).value)
    ensures var r := Run(Initial, [chunk], dir, decode, parse, false);
      var prints := SizePrints(parse(header).value);
      && r.stream.Stream? && r.stream.state == Writing
      && !HasComplete(r.events)
      && (prints ==> r.receivedBytes == |Latin1(payload)| && r.stream.written == Latin1(payload) && HasFileReceived(r.events))
      && (!prints ==> r.receivedBytes == 0 && r.stream.written == [] && r.events == [] && r.socket == SocketDestroyed)
  {
    FrameRoundTrip(header, payload);
    assert "" + decode(chunk) == decode(chunk);
    var r := Step(Initial, chunk, dir, decode, parse);
    HeaderRemainder(Initial, chunk, dir, decode, parse);
    RunCons(Initial, chunk, [], dir, decode, parse, false);
    assert [chunk] + [] == [chunk];
    if SizePrints(parse(header).value) {
      OnlyFileReceived(r.events);
    }
  }

  lemma OnlyFileReceived(evs: seq<RecvEvent>)
    requires |evs| == 1 && evs[0].FileReceived?
    ensures HasFileReceived(evs) && !HasComplete(evs)
  {
  }

  /** Completion is only deferred: the next read, even an empty one, emits
      `transfer-complete` once the count has reached the size. */
  lemma NextReadCompletes(c: Conn, data: seq<byte>, dir: string, decode: seq<byte> -> string,
                          parse: string -> Option<Json>)
    requires Live(c) && TruthyJson(c.metadata) && c.stream.Stream?
    requires AtLeast(c.receivedBytes, Get(c.metadata, "fileSize"))
    ensures HasComplete(Added(c, Step(c, data, dir, decode, parse)))
  {
    PostHeaderRead(c, data, dir, decode, parse);
  }

  /** With the check also made after the header read, a frame that arrives
      in one read and carries at least the announced size is reported
      complete in that read, the file stream ended and the socket ended. */
  lemma FixedWholeFrameCompletes(chunk: seq<byte>, header: string, payload: string, dir: string,
                                 decode: seq<byte> -> string, parse: string -> Option<Json>)
    requires decode(chunk) == Frame(header) + payload && '\n' !in header
    requires parse(header).Some? && IsFileHeader(parse(header).value)
    requires AtLeast(|Latin1(payload)|, Get(parse(header).value, "fileSize"))
    ensures var r := StepFixed(Initial, chunk, dir, decode, parse);
      && r.receivedBytes == |Latin1(payload)|
      && r.stream.Stream? && r.stream.written == Latin1(payload) && r.stream.state == Ended
      && r.socket == SocketEnded
      && HasComplete(r.events)
  {
    FrameRoundTrip(header, payload);
    assert "" + decode(chunk) == decode(chunk);
    StepHeaderCase(Initial, chunk, dir, decode, parse, true, header, payload);
    HeaderReadFile(Initial, header, payload, dir, parse, true);
    FixedOpenFileCompletes(Initial.(buffer := payload, metadata := parse(header).value), dir);
  }

  /** The read that completes the header line is the header read of the
      line and what follows it. */
  lemma StepHeaderCase(c: Conn, data: seq<byte>, dir: string, decode: seq<byte> -> string,
                       parse: string -> Option<Json>, checkDone: bool, line: string, rest: string)
    requires Live(c) && !TruthyJson(c.metadata)
    requires SplitHeader(c.buffer + decode(data)) == Some((line, rest))
    ensures StepWith(c, data, dir, decode, parse, checkDone) == HeaderRead(c, line, rest, dir, parse, checkDone)
  {
  }

  /** A file header line opens the file on the connection that holds the
      header and the remainder. */
  lemma HeaderReadFile(c: Conn, line: string, rest: string, dir: string,
                       parse: string -> Option<Json>, checkDone: bool)
    requires parse(line).Some? && IsFileHeader(parse(line).value)
    ensures HeaderRead(c, line, rest, dir, parse, checkDone)
         == OpenFile(c.(buffer := rest, metadata := parse(line).value), dir, checkDone)
  {
  }

  lemma FixedOpenFileCompletes(c: Conn, dir: string)
    requires IsFileHeader(c.metadata) && c.receivedBytes == 0 && c.events == []
    requires c.socket == SocketOpen && c.stream.NoStream?
    requires AtLeast(|Latin1(c.buffer)|, Get(c.metadata, "fileSize"))
    ensures var r := OpenFile(c, dir, true);
      && r.receivedBytes == |Latin1(c.buffer)|
      && r.stream.Stream? && r.stream.written == Latin1(c.buffer) && r.stream.state == Ended
      && r.socket == SocketEnded
      && HasComplete(r.events)
  {
    assert [] + Latin1(c.buffer) == Latin1(c.buffer);
    var r := OpenFile(c, dir, true);
    assert r.events[1].Complete?;
  }

  /** A header that announces size 0 with nothing after it is complete as
      soon as it is read, under the corrected check. */
  lemma FixedEmptyFileCompletes(chunk: seq<byte>, header: string, dir: string,
                                decode: seq<byte> -> string, parse: string -> Option<Json>)
    requires decode(chunk) == Frame(header) && '\n' !in header
    requires parse(header).Some? && IsFileHeader(parse(header).value)
    requires Get(parse(header).value, "fileSize") == Val(JNum(0))
    ensures var r := StepFixed(Initial, chunk, dir, decode, parse);
      r.receivedBytes == 0 && r.stream.Stream? && r.stream.state == Ended && HasComplete(r.events)
  {
    assert Frame(header) + "" == Frame(header);
    FixedWholeFrameCompletes(chunk, header, "", dir, decode, parse);
  }

  /** Total length of a sequence of reads. */
  function TotalLength(chunks: seq<seq<byte>>): nat {
    if chunks == [] then 0 else |chunks[0]| + TotalLength(chunks[1..])
  }

  /** The reads' bytes, in order. */
  function Concat(chunks: seq<seq<byte>>): (bytes: seq<byte>)
    ensures |bytes| == TotalLength(chunks)
  {
    if chunks == [] then [] else chunks[0] + Concat(chunks[1..])
  }

  lemma {:induction false} LastChunkCounts(chunks: seq<seq<byte>>)
    requires chunks != [] && chunks[|chunks| - 1] != []
    ensures TotalLength(chunks) > 0
  {
    if |chunks| > 1 {
      assert chunks[1..][|chunks[1..]| - 1] == chunks[|chunks| - 1];
      LastChunkCounts(chunks[1..]);
    }
  }

  /** One read of the payload, counted against a numeric size. */
  lemma PayloadStep(c: Conn, data: seq<byte>, dir: string, decode: seq<byte> -> string,
                    parse: string -> Option<Json>, checkDone: bool, size: nat)
    requires Live(c) && TruthyJson(c.metadata) && c.stream.Stream? && c.stream.state == Writing
    requires Get(c.metadata, "fileSize") == Val(JNum(size))
    ensures var r := StepWith(c, data, dir, decode, parse, checkDone);
      var done := c.receivedBytes + |data| >= size;
      && r.metadata == c.metadata
      && r.receivedBytes == c.receivedBytes + |data|
      && r.stream == c.stream.(written := c.stream.written + data, state := if done then Ended else Writing)
      && (done ==> HasComplete(Added(c, r)))
      && (!done ==> Live(r))
  {
    var r := StepWith(c, data, dir, decode, parse, checkDone);
    if c.receivedBytes + |data| >= size {
      assert Added(c, r)[1].Complete?;
    }
  }

  lemma HasCompleteAppend(a: seq<RecvEvent>, b: seq<RecvEvent>)
    requires HasComplete(a) || HasComplete(b)
    ensures HasComplete(a + b)
  {
    if HasComplete(a) {
      var i :| 0 <= i < |a| && a[i].Complete?;
      assert (a + b)[i] == a[i];
    } else {
      var i :| 0 <= i < |b| && b[i].Complete?;
      assert (a + b)[|a| + i] == b[i];
    }
  }

  /** After a file header, reads that add up to exactly the announced size
      (the last one not empty) are written in order, and the last of them
      completes the transfer: the file holds exactly those bytes and the
      stream is ended. */
  lemma {:induction false} PayloadDelivered(c: Conn, chunks: seq<seq<byte>>, dir: string,
                                            decode: seq<byte> -> string, parse: string -> Option<Json>,
                                            checkDone: bool, size: nat)
    requires Live(c) && TruthyJson(c.metadata) && c.stream.Stream? && c.stream.state == Writing
    requires Get(c.metadata, "fileSize") == Val(JNum(size))
    requires chunks != [] && chunks[|chunks| - 1] != []
    requires c.receivedBytes + TotalLength(chunks) == size
    ensures var r := Run(c, chunks, dir, decode, parse, checkDone);
      && r.receivedBytes == size
      && r.stream == c.stream.(written := c.stream.written + Concat(chunks), state := Ended)
      && HasComplete(Added(c, r))
    decreases |chunks|
  {
    var c1 := StepWith(c, chunks[0], dir, decode, parse, checkDone);
    var rest := chunks[1..];
    PayloadStep(c, chunks[0], dir, decode, parse, checkDone, size);
    if rest == [] {
      assert Concat(chunks) == chunks[0];
    } else {
      assert rest[|rest| - 1] == chunks[|chunks| - 1];
      LastChunkCounts(rest);
      PayloadDelivered(c1, rest, dir, decode, parse, checkDone, size);
      var r := Run(c1, rest, dir, decode, parse, checkDone);
      WrittenAfter(c.stream.written, chunks);
      AddedSplit(c, c1, r);
      HasCompleteAppend(Added(c, c1), Added(c1, r));
    }
  }

  lemma WrittenAfter(w: seq<byte>, chunks: seq<seq<byte>>)
    requires chunks != []
    ensures w + chunks[0] + Concat(chunks[1..]) == w + Concat(chunks)
  {
  }

  lemma AddedSplit(a: Conn, b: Conn, c: Conn)
    requires a.events <= b.events <= c.events
    ensures Added(a, c) == Added(a, b) + Added(b, c)
  {
  }

  /** The header line alone, from a fresh connection, opens the file and,
      when the size prints, emits `file-received` with the header's fields;
      otherwise it destroys the connection without an event. */
  lemma HeaderAlone(chunk: seq<byte>, header: string, dir: string,
                    decode: seq<byte> -> string, parse: string -> Option<Json>)
    requires decode(chunk) == Frame(header) && '\n' !in header
    requires parse(header).Some? && IsFileHeader(parse(header).value)
    ensures var m := parse(header).value;
      var name := Get(m, "fileName").v.s;
      var r := Step(Initial, chunk, dir, decode, parse);
      && r.metadata == m && r.receivedBytes == 0
      && r.stream == Stream(JoinPath(dir, name), [], Writing)
      && (SizePrints(m) ==> Live(r) && r.events == [FileReceived(Get(m, "transferId"), Get(m, "fileName"), Get(m, "fileSize"), JoinPath(dir, name))])
      && (!SizePrints(m) ==> !Live(r) && r.events == [])
  {
    FrameRoundTrip(header, "");
    assert Frame(header) + "" == Frame(header);
    assert "" + decode(chunk) == decode(chunk);
    HeaderRemainder(Initial, chunk, dir, decode, parse);
  }

  /** Sender and receiver agree: when the header line arrives by itself and
      the file follows in reads adding up to its size, the receiver reports
      the sender's id, name and size, stores exactly the sent bytes under
      the download directory, and reports completion. The serialiser is any
      function that `JSON.parse` inverts and that writes no raw newline, as
      `JSON.stringify` does. */
  lemma SenderReceiverAgree(stringify: Json -> string, parse: string -> Option<Json>,
                            decode: seq<byte> -> string, dir: string,
                            transferId: string, fileName: string, checksum: string,
                            headerChunk: seq<byte>, chunks: seq<seq<byte>>)
    requires var m := Metadata(transferId, fileName, TotalLength(chunks), checksum);
      parse(stringify(m)) == Some(m) && '\n' !in stringify(m)
    requires decode(headerChunk) == Frame(stringify(Metadata(transferId, fileName, TotalLength(chunks), checksum)))
    requires chunks != [] && chunks[|chunks| - 1] != []
    ensures var r := Run(Initial, [headerChunk] + chunks, dir, decode, parse, false);
      && |r.events| > 0
      && r.events[0] == FileReceived(Val(JStr(transferId)), Val(JStr(fileName)), Val(JNum(TotalLength(chunks))),
                                     JoinPath(dir, fileName))
      && r.stream == Stream(JoinPath(dir, fileName), Concat(chunks), Ended)
      && r.receivedBytes == TotalLength(chunks)
      && HasComplete(r.events)
  {
    var size := TotalLength(chunks);
    var m := Metadata(transferId, fileName, size, checksum);
    HeaderAlone(headerChunk, stringify(m), dir, decode, parse);
    var c1 := Step(Initial, headerChunk, dir, decode, parse);
    RunCons(Initial, headerChunk, chunks, dir, decode, parse, false);
    PayloadAfterHeader(c1, chunks, dir, decode, parse, size, c1.events[0], JoinPath(dir, fileName));
  }

  /** The payload half of the agreement, from the connection the header
      left behind. */
  lemma PayloadAfterHeader(c: Conn, chunks: seq<seq<byte>>, dir: string, decode: seq<byte> -> string,
                           parse: string -> Option<Json>, size: nat, first: RecvEvent, path: string)
    requires Live(c) && TruthyJson(c.metadata) && c.stream == Stream(path, [], Writing)
    requires Get(c.metadata, "fileSize") == Val(JNum(size)) && c.receivedBytes == 0 && c.events == [first]
    requires chunks != [] && chunks[|chunks| - 1] != [] && TotalLength(chunks) == size
    ensures var r := Run(c, chunks, dir, decode, parse, false);
      && |r.events| > 0 && r.events[0] == first
      && r.stream == Stream(path, Concat(chunks), Ended)
      && r.receivedBytes == size
      && HasComplete(r.events)
  {
    PayloadDelivered(c, chunks, dir, decode, parse, false, size);
    KeepsEarlierEvents(c, Run(c, chunks, dir, decode, parse, false));
  }

  lemma RunCons(c: Conn, chunk: seq<byte>, chunks: seq<seq<byte>>, dir: string,
                decode: seq<byte> -> string, parse: string -> Option<Json>, checkDone: bool)
    ensures Run(c, [chunk] + chunks, dir, decode, parse, checkDone)
         == Run(StepWith(c, chunk, dir, decode, parse, checkDone), chunks, dir, decode, parse, checkDone)
  {
    assert ([chunk] + chunks)[1..] == chunks;
  }

  /** Later steps keep the events already emitted, and a completion they
      add is among all the events. */
  lemma KeepsEarlierEvents(a: Conn, r: Conn)
    requires a.events <= r.events
    ensures forall i | 0 <= i < |a.events| :: r.events[i] == a.events[i]
    ensures HasComplete(Added(a, r)) ==> HasComplete(r.events)
  {
    assert r.events == a.events + Added(a, r);
    if HasComplete(Added(a, r)) {
      HasCompleteAppend(a.events, Added(a, r));
    }
  }

  /** One accepted connection, with the closure variables as fields. */
  class IncomingConnection {
    const downloadDir: string
    var metadata: Json
    var buffer: string
    var receivedBytes: nat
    var stream: WriteStream
    var socket: SocketState
    var crashed: bool
    var events: seq<RecvEvent>

    function Snapshot(): Conn
      reads this
    {
      Conn(metadata, buffer, receivedBytes, stream, socket, crashed, events)
    }

    constructor (dir: string)
      ensures downloadDir == dir && Snapshot() == Initial
    {
      downloadDir := dir;
      metadata, buffer, receivedBytes := JNull, "", 0;
      stream, socket, crashed, events := NoStream, SocketOpen, false, [];
    }

    /** The `data` listener. */
    method OnData(data: seq<byte>, decode: seq<byte> -> string, parse: string -> Option<Json>)
      modifies this
      ensures Snapshot() == Step(old(Snapshot()), data, downloadDir, decode, parse)
    {
      if socket == SocketDestroyed || socket == SocketClosed || crashed {
        return;
      }
      ghost var c := Snapshot();
      if !TruthyJson(metadata) {
        buffer := buffer + decode(data);
        var newlineIndex := IndexOf(buffer, '\n');
        if newlineIndex != -1 {
          var line, rest := buffer[..newlineIndex], buffer[newlineIndex + 1..];
          assert SplitHeader(buffer) == Some((line, rest));
          HeaderReadIgnoresBuffer(c, buffer, line, rest, downloadDir, parse, false);
          ReadHeader(line, rest, parse);
        }
      } else {
        ReceivePayload(data);
      }
    }

    /** The branch of the `data` listener that has just found the end of
        the header line. */
    method ReadHeader(line: string, rest: string, parse: string -> Option<Json>)
      modifies this
      ensures Snapshot() == HeaderRead(old(Snapshot()), line, rest, downloadDir, parse, false)
    {
      buffer := rest;
      var parsed := parse(line);
      if parsed.None? {
        socket := SocketDestroyed;
        return;
      }
      metadata := parsed.value;
      if metadata.JNull? {
        socket := SocketDestroyed;
        return;
      }
      if StrictEq(Get(metadata, "type"), Val(JStr("file-metadata"))) {
        var name := Get(metadata, "fileName");
        if !(name.Val? && name.v.JStr?) {
          socket := SocketDestroyed;
          return;
        }
        OpenDownload();
      }
    }

    /** Open the file named by the header and write the buffered
        remainder. */
    method OpenDownload()
      requires IsFileHeader(metadata)
      modifies this
      ensures Snapshot() == OpenFile(old(Snapshot()), downloadDir, false)
    {
      var name := Get(metadata, "fileName");
      var filePath := JoinPath(downloadDir, name.v.s);
      stream := Stream(filePath, [], Writing);
      if PropToStringThrows(Get(metadata, "fileSize")) {
        socket := SocketDestroyed;
        return;
      }
      events := events + [FileReceived(Get(metadata, "transferId"), name, Get(metadata, "fileSize"), filePath)];
      if |buffer| > 0 {
        var bufferData := Latin1(buffer);
        stream := Write(stream, bufferData);
        receivedBytes := receivedBytes + |bufferData|;
        buffer := "";
      }
    }

    /** The branch of the `data` listener once the header has been read. */
    method ReceivePayload(data: seq<byte>)
      modifies this
      ensures Snapshot() == PostHeader(old(Snapshot()), data)
    {
      if stream.NoStream? {
        crashed := true;
        return;
      }
      stream := Write(stream, data);
      receivedBytes := receivedBytes + |data|;
      events := events + [Progress(Get(metadata, "transferId"), Get(metadata, "fileName"),
                                   receivedBytes, Get(metadata, "fileSize"))];
      if AtLeast(receivedBytes, Get(metadata, "fileSize")) {
        stream := stream.(state := if stream.state == Writing then Ended else stream.state);
        events := events + [Complete(Get(metadata, "transferId"), Get(metadata, "fileName"), stream.path)];
        if socket == SocketOpen {
          socket := SocketEnded;
        }
      }
    }

    /** The `error` listener: destroy the file stream if there is one. The
        socket emits `error` only from `destroy(err)`, so it is destroyed. */
    method OnError()
      modifies this
      ensures stream == if old(stream).Stream? then old(stream).(state := Destroyed) else old(stream)
      ensures metadata == old(metadata) && buffer == old(buffer) && receivedBytes == old(receivedBytes)
      ensures socket == SocketDestroyed && crashed == old(crashed) && events == old(events)
    {
      if stream.Stream? {
        stream := stream.(state := Destroyed);
      }
      socket := SocketDestroyed;
    }

    /** The `close` listener: end a stream that was not destroyed. A stream
        that completed stays ended. */
    method OnClose()
      modifies this
      ensures socket == SocketClosed
      ensures stream == if old(stream).Stream? && old(stream).state == Writing
                        then old(stream).(state := Ended) else old(stream)
      ensures metadata == old(metadata) && buffer == old(buffer) && receivedBytes == old(receivedBytes)
      ensures crashed == old(crashed) && events == old(events)
    {
      if stream.Stream? && stream.state != Destroyed {
        stream := stream.(state := Ended);
      }
      socket := SocketClosed;
    }
  }
}
