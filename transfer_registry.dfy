/** The sending side of `FileTransfer`: the `activeTransfers` registry that
    `sendFile` fills and its handlers and `stop` empty, the promise each
    `sendFile` returns, and the events it emits.
    The file system, the TCP socket and the read stream are not modelled as
    I/O: whether the path exists, its size, `uuidv4()`, `Date.now()`, the
    checksum and each read chunk's length are passed in, and every callback
    of the socket or the read stream is a method. */
module TransferRegistry {
  import opened JsValue
  import opened TransferFraming
  import opened PathText

  const TransferPort: int := 54322

  /** A transfer record. Its socket is the transfer's own, so it is named by
      the transfer id. */
  datatype Transfer = Transfer(id: string, fileName: string, fileSize: nat, bytesSent: nat, startTime: int)

  /** How a `sendFile` promise settled. `BadPort` is the rejection by the
      exception `socket.connect` throws inside the promise executor; Node's
      wording of its message is not modelled. */
  datatype Outcome = Resolved | Rejected(message: string) | BadPort

  /** `Unconnected`: the socket whose `connect` call threw. */
  datatype SocketPhase = Unconnected | Connecting | Connected | SocketEnded | SocketDestroyed

  /** The characters `String.prototype.trim` removes. */
  predicate IsTrimmed(c: char) {
    || c == '\t' || c == '\n' || c == '\U{000B}' || c == '\U{000C}' || c == '\r' || c == ' '
    || c == '\U{00A0}' || c == '\U{1680}' || ('\U{2000}' <= c <= '\U{200A}') || c == '\U{2028}'
    || c == '\U{2029}' || c == '\U{202F}' || c == '\U{205F}' || c == '\U{3000}' || c == '\U{FEFF}'
  }

  /** `s.trim().length === 0`. */
  predicate Blank(s: string) {
    forall i | 0 <= i < |s| :: IsTrimmed(s[i])
  }

  /** Node's `validatePort` on the value of `options.port`: a number must be
      an integer from 0 to 65535, a string must be non-blank with such a
      numeric value, and any other type is refused. `number` is `Number(s)`
      on a string, `None` for NaN. */
  predicate PortValueThrows(v: Json, number: string -> Option<int>) {
    match v
    case JNum(n) => !(0 <= n <= 65535)
    case JStr(s) => Blank(s) || number(s).None? || !(0 <= number(s).value <= 65535)
    case _ => true
  }

  /** `socket.connect(port, ip, callback)` throws at once on this `port`.
      `undefined` connects to port 0 and fails later through `error`; an
      array or an object is taken as the options object, read for `path`
      (which must then be a string) and `port`; a string that is not a
      non-negative number is taken as a pipe path, which also fails later;
      anything else goes through the port check. */
  predicate ConnectThrows(port: Prop, number: string -> Option<int>) {
    match port
    case Undefined => false
    case Val(JArr(_)) => false
    case Val(JObj(fields)) =>
      if Truthy(Get(JObj(fields), "path")) then !fields["path"].JStr?
      else "port" in fields && PortValueThrows(fields["port"], number)
    case Val(JStr(s)) => number(s).Some? && number(s).value >= 0 && PortValueThrows(JStr(s), number)
    case Val(v) => PortValueThrows(v, number)
  }

  /** Which ports `connect` refuses at once: 70000, -1, `null`, `true` and a
      blank string are refused; 54322, "54322", `undefined`, a pipe name and
      an array are not. */
  lemma ConnectThrowsExamples(number: string -> Option<int>)
    requires number("54322") == Some(54322) && number(" ") == Some(0) && number("pipe") == None
    ensures ConnectThrows(Val(JNum(70000)), number) && ConnectThrows(Val(JNum(-1)), number)
    ensures ConnectThrows(Val(JNull), number) && ConnectThrows(Val(JBool(true)), number)
    ensures ConnectThrows(Val(JStr(" ")), number)
    ensures !ConnectThrows(Val(JNum(54322)), number) && !ConnectThrows(Val(JStr("54322")), number)
    ensures !ConnectThrows(Undefined, number) && !ConnectThrows(Val(JStr("pipe")), number)
    ensures !ConnectThrows(Val(JArr([JNum(70000)])), number)
  {
    assert Blank(" ") by { assert " "[0] == ' '; }
    assert !Blank("54322") by { assert "54322"[0] == '5'; }
  }

  datatype SendEvent =
    | SendProgress(transferId: string, fileName: string, bytesSent: nat, totalBytes: nat)
    | SendComplete(transferId: string, fileName: string)
    | SendError(transferId: string, fileName: string, error: string)

  /** `Map.prototype.delete` on the key order: `k` is gone, the other keys
      keep their order. */
  function DeleteKey(keys: seq<string>, k: string): (r: seq<string>)
    ensures forall x :: x in r <==> x in keys && x != k
    ensures |r| <= |keys|
  {
    if keys == [] then []
    else
      var rest := DeleteKey(keys[..|keys| - 1], k);
      var last := keys[|keys| - 1];
      assert forall x :: x in keys <==> x in keys[..|keys| - 1] || x == last;
      if last == k then rest else rest + [last]
  }

  /** On keys without repeats, deleting a present key removes exactly its
      position; deleting an absent key changes nothing. */
  lemma DeleteKeyExact(keys: seq<string>, k: string)
    requires Distinct(keys)
    ensures k !in keys ==> DeleteKey(keys, k) == keys
    ensures forall i | 0 <= i < |keys| && keys[i] == k :: DeleteKey(keys, k) == keys[..i] + keys[i + 1..]
  {
    if k !in keys {
      DeleteKeyAbsent(keys, k);
    }
    forall i | 0 <= i < |keys| && keys[i] == k
      ensures DeleteKey(keys, k) == keys[..i] + keys[i + 1..]
    {
      var before, after := keys[..i], keys[i + 1..];
      assert keys == before + [k] + after;
      assert k !in before by {
        forall j | 0 <= j < |before| ensures before[j] != k { assert before[j] == keys[j]; }
      }
      assert k !in after by {
        forall j | 0 <= j < |after| ensures after[j] != k { assert after[j] == keys[i + 1 + j]; }
      }
      DeleteKeyConcat(before + [k], after, k);
      DeleteKeyConcat(before, [k], k);
      DeleteKeyAbsent(before, k);
      DeleteKeyAbsent(after, k);
      assert DeleteKey([k], k) == DeleteKey([], k) by {
        assert [k][..0] == [];
      }
    }
  }

  /** Deletion goes element by element, so it distributes over
      concatenation. */
  lemma {:induction false} DeleteKeyConcat(a: seq<string>, b: seq<string>, k: string)
    ensures DeleteKey(a + b, k) == DeleteKey(a, k) + DeleteKey(b, k)
    decreases |b|
  {
    if b == [] {
      assert a + b == a;
    } else {
      var init := b[..|b| - 1];
      assert (a + b)[..|a + b| - 1] == a + init;
      assert (a + b)[|a + b| - 1] == b[|b| - 1];
      DeleteKeyConcat(a, init, k);
    }
  }

  /** Deleting keeps the keys free of repeats. */
  lemma {:induction false} DeleteKeyDistinct(keys: seq<string>, k: string)
    requires Distinct(keys)
    ensures Distinct(DeleteKey(keys, k))
  {
    if keys != [] {
      var init := keys[..|keys| - 1];
      assert Distinct(init) by {
        forall i, j | 0 <= i < j < |init| ensures init[i] != init[j] {
          assert init[i] == keys[i] && init[j] == keys[j];
        }
      }
      DeleteKeyDistinct(init, k);
      assert keys[|keys| - 1] !in init by {
        forall j | 0 <= j < |init| ensures init[j] != keys[|keys| - 1] { assert init[j] == keys[j]; }
      }
    }
  }

  /** Deleting twice is deleting once. */
  lemma DeleteKeyIdempotent(keys: seq<string>, k: string)
    ensures DeleteKey(DeleteKey(keys, k), k) == DeleteKey(keys, k)
  {
    var r := DeleteKey(keys, k);
    assert k !in r;
    DeleteKeyAbsent(r, k);
  }

  lemma {:induction false} DeleteKeyAbsent(keys: seq<string>, k: string)
    requires k !in keys
    ensures DeleteKey(keys, k) == keys
  {
    if keys != [] {
      DeleteKeyAbsent(keys[..|keys| - 1], k);
    }
  }

  /** A promise settles once: later `resolve` and `reject` calls are ignored. */
  function Settle(outcomes: map<string, Outcome>, id: string, o: Outcome): (r: map<string, Outcome>)
    ensures id in r
    ensures id in outcomes ==> r == outcomes
    ensures id !in outcomes ==> r[id] == o
    ensures forall k | k != id :: (k in r <==> k in outcomes) && (k in r ==> r[k] == outcomes[k])
  {
    if id in outcomes then outcomes else outcomes[id := o]
  }

  /** The first settlement of a promise is final. */
  lemma SettleFirstWins(outcomes: map<string, Outcome>, id: string, first: Outcome, later: Outcome)
    requires id !in outcomes
    ensures Settle(Settle(outcomes, id, first), id, later)[id] == first
  {
  }

  /** The file transfer service, sending side. */
  class FileTransfer {
    /** Every transfer record `sendFile` has created; its handlers keep
        updating the record after it has left the registry. */
    var records: map<string, Transfer>
    /** The keys of `activeTransfers`, in insertion order. */
    var active: seq<string>
    var sockets: map<string, SocketPhase>
    var outcomes: map<string, Outcome>
    var events: seq<SendEvent>
    var serverListening: bool

    predicate Valid()
      reads this
    {
      && Distinct(active)
      && (forall i | 0 <= i < |active| :: active[i] in records)
      && (forall k | k in records :: records[k].id == k && k in sockets)
    }

    constructor ()
      ensures records == map[] && active == [] && sockets == map[] && outcomes == map[] && events == []
      ensures !serverListening
      ensures Valid()
    {
      records, active, sockets, outcomes, events := map[], [], map[], map[], [];
      serverListening := false;
    }

    method Start()
      modifies this`serverListening
      ensures serverListening
    {
      serverListening := true;
    }

    /** `sendFile(filePath, targetPeer)`. `transferId` is the fresh uuid,
        `fileExists` and `size` what the file system reports for the path,
        `port` the peer's `port` field, `now` the clock. A missing file
        rejects before any record exists; otherwise the record is
        registered, and the socket starts connecting unless `connect`
        throws on the port. That rejects the promise before the `error` and
        `close` listeners exist, so the record stays registered and no
        `transfer-error` is emitted. */
    method SendFile(filePath: string, fileExists: bool, size: nat, transferId: string, now: int,
                    port: Prop, number: string -> Option<int>)
      requires Valid()
      requires transferId !in records && transferId !in outcomes && transferId !in active
      modifies this`records, this`active, this`sockets, this`outcomes
      ensures Valid()
      ensures !fileExists ==>
        && records == old(records) && active == old(active) && sockets == old(sockets)
        && outcomes == old(outcomes)[transferId := Rejected("File does not exist")]
      ensures fileExists ==>
        && records == old(records)[transferId := Transfer(transferId, BaseName(filePath), size, 0, now)]
        && active == old(active) + [transferId]
      ensures fileExists && !ConnectThrows(port, number) ==>
        sockets == old(sockets)[transferId := Connecting] && outcomes == old(outcomes)
      ensures fileExists && ConnectThrows(port, number) ==>
        sockets == old(sockets)[transferId := Unconnected] && outcomes == old(outcomes)[transferId := BadPort]
    {
      if !fileExists {
        outcomes := Settle(outcomes, transferId, Rejected("File does not exist"));
        return;
      }
      var refused := ConnectThrows(port, number);
      Launch(Transfer(transferId, BaseName(filePath), size, 0, now), refused);
    }

    /** Register a fresh transfer and start connecting its socket; when
        `connect` is `refused`, the executor's throw rejects the promise. */
    method Launch(t: Transfer, refused: bool)
      requires Valid() && t.id !in records && t.id !in active
      modifies this`records, this`active, this`sockets, this`outcomes
      ensures Valid()
      ensures records == old(records)[t.id := t] && active == old(active) + [t.id]
      ensures sockets == old(sockets)[t.id := if refused then Unconnected else Connecting]
      ensures outcomes == if refused then old(outcomes)[t.id := BadPort] else old(outcomes)
    {
      Register(t, if refused then Unconnected else Connecting);
      if refused {
        outcomes := outcomes[t.id := BadPort];
      }
    }

    /** `this.activeTransfers.set(id, transfer)` for a fresh id, whose
        socket is in `phase`. */
    method Register(t: Transfer, phase: SocketPhase)
      requires Valid() && t.id !in records && t.id !in active
      modifies this`records, this`active, this`sockets
      ensures Valid()
      ensures records == old(records)[t.id := t] && active == old(active) + [t.id]
      ensures sockets == old(sockets)[t.id := phase]
    {
      DistinctAppend(active, t.id);
      records := records[t.id := t];
      active := active + [t.id];
      sockets := sockets[t.id := phase];
    }

    /** The connect callback: log the peer's name, then write the header
        line. `checksum` is what `calculateChecksum` returns, `None` when
        it throws (the path is a directory, or the file is gone). When the
        log line or the checksum throws, the callback ends with nothing
        written and no read stream, so nothing settles the promise. */
    method OnConnect(id: string, stringify: Json -> string, peerName: Prop, checksum: Option<string>)
      returns (line: Option<string>)
      requires Valid() && id in records
      modifies this`sockets
      ensures Valid()
      ensures sockets == old(sockets)[id := Connected]
      ensures line.Some? <==> !PropToStringThrows(peerName) && checksum.Some?
      ensures line.Some? ==>
        var t := records[id];
        line.value == Frame(stringify(Metadata(id, t.fileName, t.fileSize, checksum.value)))
    {
      sockets := sockets[id := Connected];
      if PropToStringThrows(peerName) || checksum.None? {
        return None;
      }
      var t := records[id];
      var metadata := Metadata(id, t.fileName, t.fileSize, checksum.value);
      line := Some(Frame(stringify(metadata)));
    }

    /** A read-stream `data` chunk of `n` bytes: count it, emit progress. */
    method OnChunk(id: string, n: nat)
      requires Valid() && id in records
      modifies this`records, this`events
      ensures Valid()
      ensures records == old(records)[id := old(records)[id].(bytesSent := old(records)[id].bytesSent + n)]
      ensures events == old(events) + [SendProgress(id, records[id].fileName, records[id].bytesSent, records[id].fileSize)]
    {
      var t := records[id];
      t := t.(bytesSent := t.bytesSent + n);
      records := records[id := t];
      events := events + [SendProgress(id, t.fileName, t.bytesSent, t.fileSize)];
    }

    /** The read stream ended: report completion, unregister, end the
        socket, resolve. */
    method OnEnd(id: string)
      requires Valid() && id in records
      modifies this`active, this`sockets, this`outcomes, this`events
      ensures Valid()
      ensures id !in active && active == DeleteKey(old(active), id)
      ensures events == old(events) + [SendComplete(id, records[id].fileName)]
      ensures sockets == old(sockets)[id := SocketEnded]
      ensures outcomes == Settle(old(outcomes), id, Resolved)
    {
      events := events + [SendComplete(id, records[id].fileName)];
      Unregister(id);
      sockets := sockets[id := SocketEnded];
      outcomes := Settle(outcomes, id, Resolved);
    }

    /** A read error: report it, unregister, destroy the socket, reject. */
    method OnReadError(id: string, message: string)
      requires Valid() && id in records
      modifies this`active, this`sockets, this`outcomes, this`events
      ensures Valid()
      ensures id !in active && active == DeleteKey(old(active), id)
      ensures events == old(events) + [SendError(id, records[id].fileName, message)]
      ensures sockets == old(sockets)[id := SocketDestroyed]
      ensures outcomes == Settle(old(outcomes), id, Rejected(message))
    {
      events := events + [SendError(id, records[id].fileName, message)];
      Unregister(id);
      sockets := sockets[id := SocketDestroyed];
      outcomes := Settle(outcomes, id, Rejected(message));
    }

    /** A socket error: Node emits it from `destroy(err)`, so the socket is
        already destroyed; report it, unregister, reject. */
    method OnSocketError(id: string, message: string)
      requires Valid() && id in records
      modifies this`active, this`sockets, this`outcomes, this`events
      ensures Valid()
      ensures id !in active && active == DeleteKey(old(active), id)
      ensures events == old(events) + [SendError(id, records[id].fileName, message)]
      ensures sockets == old(sockets)[id := SocketDestroyed]
      ensures outcomes == Settle(old(outcomes), id, Rejected(message))
    {
      events := events + [SendError(id, records[id].fileName, message)];
      Unregister(id);
      sockets := sockets[id := SocketDestroyed];
      outcomes := Settle(outcomes, id, Rejected(message));
    }

    /** The socket closed: Node emits `close` once the socket is destroyed,
        whether after an error, after both sides ended, or after `destroy()`;
        unregister. */
    method OnClose(id: string)
      requires Valid() && id in records
      modifies this`active, this`sockets
      ensures Valid()
      ensures id !in active && active == DeleteKey(old(active), id)
      ensures sockets == old(sockets)[id := SocketDestroyed]
    {
      Unregister(id);
      sockets := sockets[id := SocketDestroyed];
    }

    /** `this.activeTransfers.delete(transferId)`. */
    method Unregister(id: string)
      requires Valid()
      modifies this`active
      ensures Valid()
      ensures id !in active && active == DeleteKey(old(active), id)
    {
      DeleteKeyDistinct(active, id);
      assert forall x | x in active :: x in records;
      active := DeleteKey(active, id);
    }

    /** `stop`: close the server, destroy the socket of every registered
        transfer in order, then empty the registry. */
    method Stop()
      requires Valid()
      modifies this`serverListening, this`sockets, this`active
      ensures Valid()
      ensures !serverListening && active == []
      ensures sockets.Keys == old(sockets).Keys
      ensures forall k | k in sockets ::
        sockets[k] == if k in old(active) then SocketDestroyed else old(sockets)[k]
    {
      serverListening := false;
      var entries := active;
      var i := 0;
      while i < |entries|
        invariant 0 <= i <= |entries| && entries == active && !serverListening
        invariant sockets.Keys == old(sockets).Keys
        invariant forall k | k in sockets ::
          sockets[k] == if k in entries[..i] then SocketDestroyed else old(sockets)[k]
      {
        var id := entries[i];
        assert entries[..i + 1] == entries[..i] + [id];
        sockets := sockets[id := SocketDestroyed];
        i := i + 1;
      }
      assert entries[..i] == entries;
      active := [];
    }

    /** `getActiveTransfers`: the registered records in insertion order. */
    method GetActiveTransfers() returns (r: seq<Transfer>)
      requires Valid()
      ensures |r| == |active|
      ensures forall i | 0 <= i < |r| :: r[i] == records[active[i]]
    {
      var a, recs := active, records;
      r := seq(|a|, i requires 0 <= i < |a| && a[i] in recs => recs[a[i]]);
    }
  }
}
