# lan-file-share: a Dafny model of its discovery, transfer and UI rules

lan-file-share lets desktop machines on one LAN find each other and send
files straight to each other. This project models the parts of it that
have rules worth stating:

- **Peer discovery** (`public/network/discovery.js`). A `Map` from device
  id to peer record:
  - a UDP multicast announcement inserts the sender on first sighting and
    refreshes its `lastSeen` afterwards;
  - a periodic sweep evicts peers silent for more than 15 s;
  - `stop` clears the table.

  Module `Discovery` holds the table as a value (`Table`: the key order
  plus a map), with specification functions `Receive`, `Sweep` and
  `Tick`: the sweep as one tick runs it, cut short by a log line that
  throws. Its class `NetworkDiscovery` updates the table in place, and
  each method is proved against those functions.
- **File transfer** (`public/network/fileTransfer.js`). One TCP
  connection per file: a JSON header line ended by `\n`, then the raw
  bytes.
  - `TransferFraming` covers the frame.
  - `TransferReceiver` covers the receiving state machine, over the
    closure variables `metadata`, `buffer` and `receivedBytes`. It is a
    pure step function `Step` on a `Conn` value, and a class
    `IncomingConnection` whose listeners are proved to perform that step.
  - `TransferRegistry` covers the sending side, which is the
    `activeTransfers` registry, the promise outcome of each `sendFile`,
    and `stop`.
- **UI rules** (`src/App.js` and `src/components/*.js`):
  - `App`: the list updaters of the top-level component and its
    sequential send loop;
  - `DeviceList`: last-seen labels, platform icons, card selection and
    the send guard;
  - `TransferStatus`: the active/finished split, the icons and the recent
    list;
  - `FileSelector`: display names and file icons;
  - `FileDropZone`: the drop zone's file list and send button.

`JsValue` holds the JavaScript semantics these rely on:
- property reads that yield `undefined`;
- truthiness and `===`;
- object literals with repeated keys;
- `Array.prototype.filter`.

`PathText` holds `split(...).pop()` and `path.basename`.

Some inputs are parameters, because they are I/O or foreign code:
- the network, the file system, clocks, `uuidv4()`, MD5;
- `JSON.parse`, `JSON.stringify` and UTF-8 decoding.

Examples: the parsed datagram and its source address, `now`, each read's
bytes, whether a path exists and its size.

The model follows the code where its behaviour is surprising:
- eviction is strictly `now - lastSeen > 15000` (`discovery.js:149`);
- a repeat sighting sets `lastSeen` to the current time, which need not
  increase;
- a header announcing size 0 is not completed by the header read
  (`fileTransfer.js:186-191`);
- the received `fileName` is joined to the download directory without any
  containment check (`fileTransfer.js:173`);
- the checksum is sent but never checked on receipt;
- no size-mismatch error exists when a connection closes early;
- the announcement the code sends carries type "desktop", so no device
  accepts it (`discovery.js:117-125`; see Findings);
- the header read's remainder is re-encoded one byte per UTF-16 code
  unit, so a character above U+FFFF is written and counted as two bytes
  (`fileTransfer.js:186-189`);
- a template literal throws on an object with its own `toString` key, or
  an array holding one, and three log lines print values that came off
  the network:
  - in the sweep (`discovery.js:152`) it ends the tick right after that
    peer's `peer-lost`, so the later stale peers wait for the next tick;
  - in the receiver (`fileTransfer.js:176`) it lands in the `catch`: the
    socket is destroyed with the file just opened, and no `file-received`
    is emitted;
  - in the sender's connect callback (`fileTransfer.js:77`) it ends the
    callback before the header is written;
  - the log line of a first sighting (`discovery.js:104`) runs inside the
    handler's `try`, after the insert and the event, so it changes nothing;
- a peer port that `socket.connect` refuses at once (`fileTransfer.js:76`)
  rejects the send, but the record stays registered and no
  `transfer-error` is emitted;
- a checksum that throws (the path is a directory) ends the connect
  callback with nothing written, the send never settles, and the app's
  send loop waits on it forever (`App.js:206`);
- the device list stores the clicked list entry itself, so a card whose
  entry has not been replaced since is deselected by a click whatever its
  id (`DeviceList.js:120-121`).

## Model

| member | source | states |
|---|---|---|
| JsValue.Get | public/network/discovery.js:89-97 | a property read on parsed JSON is `undefined` exactly when the value is not an object having that key, and otherwise the stored value |
| JsValue.TruthyJson | public/network/fileTransfer.js:160 | no contract; `!metadata` on a parsed value: `null`, `false`, 0 and "" are falsy, everything else truthy |
| JsValue.Truthy | src/components/FileDropZone.js:39 | no contract; truthiness of a property read, `undefined` falsy |
| JsValue.StrictEq | src/App.js:82 | no contract; `===` on reads from two records: equal primitives, or both `undefined`; specified by `StrictEqString` and `App.StrictEqTrans` |
| JsValue.ToStringThrows | public/network/discovery.js:152 | no contract; `${v}` throws for an object with its own `toString` key, or an array holding one at any depth; shown by `ToStringThrowsExamples` |
| JsValue.ToStringThrowsExamples | public/network/discovery.js:152 | `{"toString":0}` and an array holding it cannot be printed; an object without that key, an array of primitives and `undefined` can |
| JsValue.Field | src/App.js:82 | a property read on a UI record is `undefined` exactly for a missing key |
| JsValue.StrictEqString | src/App.js:113 | `===` against a string literal holds exactly for that string |
| JsValue.LiteralFields | public/network/discovery.js:117-125 | an object literal's keys are exactly the keys written |
| JsValue.LiteralLastWins | public/network/discovery.js:117-125 | when a key is written more than once, the literal takes the value of its last occurrence |
| JsValue.FilterMembers | src/components/TransferStatus.js:5-6 | `filter` keeps exactly the elements that pass the test |
| JsValue.Filter | src/App.js:94 | never longer than the list; specified by `FilterMembers`, `FilterConcat` and `FilterPartition` |
| JsValue.FilterConcat | src/App.js:94 | `filter` distributes over concatenation, so the kept elements stay in their original order |
| JsValue.FilterKeepsAll | src/App.js:94 | when every element passes, `filter` returns the list unchanged |
| JsValue.FilterPartition | src/components/TransferStatus.js:5-6 | two complementary filters split a list: their multisets add up to the list's multiset and their lengths to its length |
| PathText.AfterLast | src/components/FileSelector.js:13-14 | `split(seps).pop()` is the longest separator-free suffix: either the whole string or the text after a separator |
| PathText.AfterLastNoSeparator | src/components/FileSelector.js:13-14 | a string without separators is its own last component |
| PathText.AfterLastSplit | src/components/FileSelector.js:13-14 | the string is its prefix up to and including the last separator, followed by its last component |
| PathText.AfterLastUnique | src/components/FileSelector.js:13-14 | any separator-free suffix that is either the whole string or preceded by a separator is the last component |
| PathText.AfterLastTwice | src/components/FileDropZone.js:28 | splitting by one separator and then by another gives the same result as splitting by both at once |
| PathText.StripTrailing | public/network/fileTransfer.js:62 | drops exactly the trailing run of the character |
| PathText.BaseName | public/network/fileTransfer.js:62 | `path.basename` contains no `/` |
| PathText.BaseNameSuffix | public/network/fileTransfer.js:62 | for a path with no trailing slash, `path.basename` is the text after the last `/`, and it is a suffix of the path |
| Discovery.PeerOf | public/network/discovery.js:90-98 | the record takes `ip` from the packet's source address and `lastSeen` from the clock; id and name come from the payload |
| Discovery.Accepts | public/network/discovery.js:89 | no contract; `data.type === 'announce' && data.deviceId !== this.deviceId` read with strict equality, a `null` datagram giving `undefined` for both; specified by `ReceiveIgnored`, `SelfAnnouncementRejected` and `AnnounceFixedAccepted` |
| Discovery.Receive | public/network/discovery.js:85-113 | no contract; specified by `ReceiveIgnored`, `ReceiveFirstSighting`, `ReceiveRepeatSighting` and `ReceivePreservesInvariant` |
| Discovery.ReceiveIgnored | public/network/discovery.js:86-89 | a datagram that is not JSON, or is not an announcement from another device, changes nothing and emits nothing |
| Discovery.SelfAnnouncementRejected | public/network/discovery.js:89 | an announcement carrying the local device id is rejected |
| Discovery.ReceiveFirstSighting | public/network/discovery.js:100-104 | a new id is appended to the key order and its record carries the source address and `now`; other records are unchanged and exactly one `peer-found` is emitted |
| Discovery.ReceiveRepeatSighting | public/network/discovery.js:105-108 | a known id gets only a new `lastSeen`: key order and other records are unchanged, and nothing is emitted |
| Discovery.ReceivePreservesInvariant | public/network/discovery.js:89-108 | every datagram keeps the table invariant: one record per id stored under its own id, never the local id, and type always "announce" |
| Discovery.Sweep | public/network/discovery.js:145-151 | no contract; the whole sweep, specified by `SweepSplits` and `SweepExact`; it is the tick when no log line throws (`TickWithoutThrow`) |
| Discovery.IsStale | public/network/discovery.js:149 | no contract; a peer is stale when `now - lastSeen > 15000`, strictly; specified by `SweepExact` and `EvictionScenario` (15000 survives, 15001 is evicted) |
| Discovery.PartialSweep | public/network/discovery.js:148-151 | no contract; the table once the walk has visited the first i entries, which `SweepOnce`'s loop invariant is written in; specified by `PartialSweepInvariant`, `TickAfterWalk` and `StoppedSweep` |
| Discovery.SweepSplits | public/network/discovery.js:148-151 | each id of the table is either stale (then reported lost) or a survivor, never both; the tick is this sweep whenever no stale peer's name throws (`TickWithoutThrow`) |
| Discovery.StaleIdsDistinct | public/network/discovery.js:148-151 | no id is reported lost twice |
| Discovery.SurvivorsDistinct | public/network/discovery.js:148-151 | the surviving key order has no repeats |
| Discovery.SweepExact | public/network/discovery.js:145-151 | when no stale peer's name throws, so that the tick is `Sweep`: the sweep keeps exactly the peers with `now - lastSeen <= 15000` and leaves their records untouched; it reports exactly the others, once each, and keeps the invariant |
| Discovery.AbortsAt | public/network/discovery.js:149-152 | no contract; the entry is stale and its name cannot be printed, so the log line after its `peer-lost` throws |
| Discovery.FirstAbort | public/network/discovery.js:148-152 | the first entry at or after the start whose visit throws: no entry before it throws, and it throws unless it is the end of the order |
| Discovery.Tick | public/network/discovery.js:144-155 | no contract; the table, the reported ids and the throw of one cleanup tick, specified by `TickThrows`, `TickWithoutThrow` and `TickAborted` |
| Discovery.TickThrows | public/network/discovery.js:148-152 | a tick throws exactly when some stale peer's name cannot be printed |
| Discovery.TickWithoutThrow | public/network/discovery.js:144-155 | when no stale peer's name throws, the tick is the whole sweep and does not throw |
| Discovery.TickAborted | public/network/discovery.js:148-152 | a tick that throws at entry k has deleted and reported every stale entry before k, then k; every later entry, stale or not, stays with its record, and the invariant holds |
| Discovery.TickStopsAt | public/network/discovery.js:148-152 | the tick that throws at entry k stops right after visiting it |
| Discovery.LostThroughAbort | public/network/discovery.js:148-152 | the ids reported up to and including a stale entry k end with k |
| Discovery.TickRunsThrough | public/network/discovery.js:148-151 | a tick in which nothing throws visits every entry |
| Discovery.TickAfterWalk | public/network/discovery.js:148-155 | where the loop stops, the partial sweep is the tick's table and a valid one |
| Discovery.StoppedSweep | public/network/discovery.js:148-151 | after visiting entries up to a stale k: k is gone, the order is the survivors then the unvisited entries, the later entries are all kept, and each record is the original |
| Discovery.PartialSweepInvariant | public/network/discovery.js:148-151 | every partial sweep of a valid table is valid |
| Discovery.DeletePreservesInvariant | public/network/discovery.js:150 | `peers.delete(id)` keeps the table invariant |
| Discovery.AbortedTickScenario | public/network/discovery.js:148-152 | two stale peers, the first named `{"toString":0}`: the tick deletes and reports only the first and throws; the next tick removes the second |
| Discovery.FirstTickThrows | public/network/discovery.js:148-152 | of two stale entries, when the first one's name throws the tick deletes and reports only that one, and throws |
| Discovery.FirstOfTwoSwept | public/network/discovery.js:148-151 | visiting only the stale first of two entries leaves the second entry with its record and reports only the first |
| Discovery.FirstRecordDropped | public/network/discovery.js:149-150 | deleting the stale first of two records leaves exactly the second |
| Discovery.LastPeerSwept | public/network/discovery.js:144-155 | a single stale entry whose name prints is deleted and reported, and the tick does not throw |
| Discovery.AnnouncePayloadRejected | public/network/discovery.js:117-125 | the announcement as written has type "desktop", because the later `type` key wins, so every receiver's filter rejects it |
| Discovery.AnnounceFixedAccepted | public/network/discovery.js:117-125 | with the device type under a key of its own, every other device accepts the announcement and records the sender's id, name, platform and port |
| Discovery.AnnounceLiteral | public/network/discovery.js:117-125 | no contract; the key-value pairs of the announcement literal in the order written, with `type` twice |
| Discovery.AnnouncePayload | public/network/discovery.js:117-125 | no contract; the object the literal evaluates to, the later of two equal keys winning (`LiteralLastWins`); specified by `AnnouncePayloadRejected` |
| Discovery.AnnouncePayloadFixed | public/network/discovery.js:117-125 | no contract; the literal with the device type under a key of its own; specified by `AnnounceFixedAccepted` |
| Discovery.EvictionScenario | public/network/discovery.js:89-151 | a peer announced at 1000 is inserted with its source address; it survives a sweep at 16000 and is lost at 16001 |
| Discovery.NetworkDiscovery.constructor | public/network/discovery.js:7-25 | empty table, no timers, device info with type "desktop" and transfer port 54322 |
| Discovery.NetworkDiscovery.Start | public/network/discovery.js:27-59 | the socket is open and both timers run; the table is unchanged |
| Discovery.NetworkDiscovery.HandleMessage | public/network/discovery.js:85-113 | the new table and the emitted events are those of `Receive`, and the invariant is kept |
| Discovery.NetworkDiscovery.SweepOnce | public/network/discovery.js:144-155 | the loop over the entries leaves the table of `Tick` and emits one `peer-lost` per id `Tick` reports, in iteration order; it reports a throw of the log line exactly when `Tick` does, and keeps the invariant |
| Discovery.NetworkDiscovery.VisitEntry | public/network/discovery.js:148-153 | one loop iteration advances the partial sweep by one entry, and reports a throw exactly when the entry is stale and its name cannot be printed |
| Discovery.NetworkDiscovery.Evict | public/network/discovery.js:150-151 | `peers.delete(id)` plus one `peer-lost` |
| Discovery.NetworkDiscovery.Announce | public/network/discovery.js:116-125 | the datagram sent is the literal as written, whose `type` is "desktop", so no device accepts it; the corrected literal is `AnnouncePayloadFixed` |
| Discovery.NetworkDiscovery.Stop | public/network/discovery.js:61-83 | both timers are cleared, the socket is closed and the table emptied, with no `peer-lost` emitted |
| Discovery.NetworkDiscovery.GetPeers | public/network/discovery.js:158-160 | the records in insertion order, one per key, with each record listed |
| TransferFraming.IndexOf | public/network/fileTransfer.js:163 | `indexOf` returns -1 exactly when the character is absent, and otherwise its first position |
| TransferFraming.SplitHeader | public/network/fileTransfer.js:163-167 | there is no split while no newline has arrived; otherwise the buffer is header + `\n` + remainder, with no newline in the header |
| TransferFraming.Frame | public/network/fileTransfer.js:88 | the sender's header line is the serialised header followed by one newline |
| TransferFraming.FrameRoundTrip | public/network/fileTransfer.js:88-167 | a header without a newline, framed and followed by any payload, splits back into exactly that header and payload |
| TransferFraming.SplitHeaderExtend | public/network/fileTransfer.js:162-167 | bytes arriving after the first newline only lengthen the remainder |
| TransferFraming.UnitsOf | public/network/fileTransfer.js:186-187 | a character is one UTF-16 code unit below U+10000 and otherwise a high and a low surrogate that encode it |
| TransferFraming.CodeUnits | public/network/fileTransfer.js:186-187 | a string's UTF-16 code units, at least one per character, each below 0x10000 |
| TransferFraming.CodeUnitsNarrow | public/network/fileTransfer.js:186-187 | without characters above U+FFFF, the code units are exactly the characters' codes |
| TransferFraming.Latin1 | public/network/fileTransfer.js:187 | `Buffer.from(s, 'binary')` gives one byte per UTF-16 code unit: the unit's value modulo 256 |
| TransferFraming.Latin1Narrow | public/network/fileTransfer.js:187 | characters below 256 are written unchanged, one byte each |
| TransferFraming.Latin1SurrogatePair | public/network/fileTransfer.js:187-189 | U+1F600 is written as the two bytes `3D 00`, the low bytes of its surrogates |
| TransferFraming.Latin1Lossy | public/network/fileTransfer.js:162-187 | two different remainders can be written as the same bytes |
| TransferFraming.Metadata | public/network/fileTransfer.js:80-86 | the header has type "file-metadata" and the transfer's id, name, size and checksum |
| TransferReceiver.JoinPath | public/network/fileTransfer.js:173 | the path is the directory, one `/`, then the name |
| TransferReceiver.Live | public/network/fileTransfer.js:195 | no contract; a destroyed or closed socket, or a crashed listener, takes no more reads |
| TransferReceiver.AtLeast | public/network/fileTransfer.js:214 | no contract; `n >= size` as JavaScript converts the size: a number, `null` as 0, booleans as 0 and 1; any other value is never reached |
| TransferReceiver.IsFileHeader | public/network/fileTransfer.js:172-173 | no contract; type "file-metadata" and a string `fileName`, the headers for which a file is opened |
| TransferReceiver.SizePrints | public/network/fileTransfer.js:176 | no contract; the log line can print `fileSize` |
| TransferReceiver.Write | public/network/fileTransfer.js:188-201 | a write appends to an open stream, and is not stored once the stream is ended or destroyed |
| TransferReceiver.Finish | public/network/fileTransfer.js:214-225 | the completion branch keeps the written bytes and count, and emits `transfer-complete` with the stream's path |
| TransferReceiver.HeaderRead | public/network/fileTransfer.js:166-197 | the count and the events only grow; specified by `MalformedHeaderDestroys`, `HeaderReadFile` and `HeaderRemainder` |
| TransferReceiver.OpenFile | public/network/fileTransfer.js:172-191 | the count and the events only grow; specified by `HeaderRemainder` and `FixedOpenFileCompletes` |
| TransferReceiver.PostHeader | public/network/fileTransfer.js:199-226 | the count and the events only grow; specified by `PostHeaderRead` and `PostHeaderWithoutFile` |
| TransferReceiver.StepWith | public/network/fileTransfer.js:159-227 | a read never lowers `receivedBytes` and never retracts an event |
| TransferReceiver.Step | public/network/fileTransfer.js:159-227 | one read as the code handles it: the count and the events only grow; specified by `BufferingOnly`, `HeaderRemainder`, `PostHeaderRead` and `WholeFrameInOneRead` |
| TransferReceiver.Run | public/network/fileTransfer.js:159-227 | successive `data` events on one connection never lower `receivedBytes` and never retract an event; used by `RunDead`, `PayloadDelivered` and `SenderReceiverAgree` |
| TransferReceiver.StepFixed | public/network/fileTransfer.js:159-227 | one read with completion also checked after the header read: the count and the events only grow; specified by `FixedWholeFrameCompletes` |
| TransferReceiver.BufferingOnly | public/network/fileTransfer.js:160-165 | while no newline has arrived, a read only grows the buffer: metadata, stream, count, socket and events are unchanged |
| TransferReceiver.MalformedHeaderDestroys | public/network/fileTransfer.js:169-196 | a header that `JSON.parse` rejects destroys the socket; nothing is opened or emitted |
| TransferReceiver.RunDead | public/network/fileTransfer.js:195 | a connection that is destroyed, closed or crashed ignores every later read |
| TransferReceiver.HeaderRemainder | public/network/fileTransfer.js:172-191 | a file header opens the file under the download directory; if its size prints, `file-received` is emitted with the header's fields, and the remainder is written as Latin-1, counted by its byte length (one per UTF-16 unit) and removed from the buffer; if printing the size throws, the socket is destroyed with the file open and nothing written, counted or emitted |
| TransferReceiver.NoCompletionInHeaderRead | public/network/fileTransfer.js:160-198 | the header-bearing read never emits `transfer-complete` |
| TransferReceiver.PostHeaderRead | public/network/fileTransfer.js:199-226 | after the header, a read adds its length to the count and writes its bytes; it emits progress, and emits `transfer-complete` exactly when the count reaches the announced size |
| TransferReceiver.PostHeaderWithoutFile | public/network/fileTransfer.js:201 | after a truthy header that was not a file header, the next read throws (`writeStream` is null) |
| TransferReceiver.WholeFrameInOneRead | public/network/fileTransfer.js:172-214 | a whole frame arriving in one read opens the file and never reports completion; the payload is written and counted when the size prints, and nothing is written, counted or emitted, with the socket destroyed, when it does not |
| TransferReceiver.NextReadCompletes | public/network/fileTransfer.js:214 | completion is deferred: the next read, even an empty one, reports it |
| TransferReceiver.FixedWholeFrameCompletes | public/network/fileTransfer.js:186-224 | with the size check also made in the header read, a whole frame in one read completes: the stream and socket are ended and `transfer-complete` is emitted |
| TransferReceiver.FixedEmptyFileCompletes | public/network/fileTransfer.js:186-224 | under the corrected check, a header announcing size 0 completes on its own read |
| TransferReceiver.PayloadDelivered | public/network/fileTransfer.js:199-226 | reads adding up to the announced size are written in order; the file holds exactly those bytes, the stream ends and completion is reported |
| TransferReceiver.HeaderAlone | public/network/fileTransfer.js:160-191 | a header line read alone opens the file and writes nothing; it emits exactly one `file-received` when the size prints, and otherwise destroys the connection with no event |
| TransferReceiver.SenderReceiverAgree | public/network/fileTransfer.js:80-226 | the receiver reports the sender's id, name and size, stores exactly the sent bytes under the download directory, and reports completion |
| TransferReceiver.IncomingConnection.constructor | public/network/fileTransfer.js:154-157 | the closure variables start as null, empty and 0 |
| TransferReceiver.IncomingConnection.OnData | public/network/fileTransfer.js:159-227 | the `data` listener performs exactly `Step` on the connection's state |
| TransferReceiver.IncomingConnection.ReadHeader | public/network/fileTransfer.js:166-197 | the branch that found the newline performs the header read |
| TransferReceiver.IncomingConnection.OpenDownload | public/network/fileTransfer.js:172-191 | opening the file, logging, and writing the remainder perform the file-header branch, the throwing log line included |
| TransferReceiver.IncomingConnection.ReceivePayload | public/network/fileTransfer.js:199-226 | the post-header branch performs `PostHeader` |
| TransferReceiver.IncomingConnection.OnError | public/network/fileTransfer.js:229-234 | an open stream is destroyed and the socket is destroyed (it emits `error` only from `destroy`); nothing else changes |
| TransferReceiver.IncomingConnection.OnClose | public/network/fileTransfer.js:236-240 | a stream still writing is ended, and a destroyed or completed stream stays as it was |
| TransferRegistry.DeleteKey | public/network/fileTransfer.js:114 | `Map.delete` leaves exactly the other keys |
| TransferRegistry.DeleteKeyExact | public/network/fileTransfer.js:114 | on distinct keys, deleting a present key removes exactly its position and keeps the order; deleting an absent key changes nothing |
| TransferRegistry.DeleteKeyDistinct | public/network/fileTransfer.js:114 | deleting keeps the keys distinct |
| TransferRegistry.DeleteKeyIdempotent | public/network/fileTransfer.js:114-148 | several handlers deleting the same id is the same as one deleting it |
| TransferRegistry.Settle | public/network/fileTransfer.js:116-144 | a promise settles once; later `resolve` or `reject` calls are ignored |
| TransferRegistry.SettleFirstWins | public/network/fileTransfer.js:116-144 | the first settlement of a transfer is final |
| TransferRegistry.PortValueThrows | public/network/fileTransfer.js:76 | no contract; the port check refuses a number outside 0 to 65535, a blank or out-of-range string, and every other type |
| TransferRegistry.ConnectThrows | public/network/fileTransfer.js:76 | no contract; `socket.connect` throws at once on this peer port; `undefined`, arrays, pipe names and valid ports fail, if at all, through `error` |
| TransferRegistry.ConnectThrowsExamples | public/network/fileTransfer.js:76 | 70000, -1, `null`, `true` and a blank string are refused at once; 54322, "54322", `undefined`, a pipe name and an array are not |
| TransferRegistry.FileTransfer.constructor | public/network/fileTransfer.js:9-15 | empty registry, no server |
| TransferRegistry.FileTransfer.Start | public/network/fileTransfer.js:17-35 | the server is listening |
| TransferRegistry.FileTransfer.SendFile | public/network/fileTransfer.js:52-76 | a missing file rejects with "File does not exist" and no record; otherwise the record (base name, size, 0 sent) is registered last; its socket is connecting, or, for a port `connect` refuses at once, unconnected with the promise rejected, the record left registered and no event |
| TransferRegistry.FileTransfer.Register | public/network/fileTransfer.js:74 | the record is added under its fresh id, last in the key order, with its socket phase, and the invariant holds |
| TransferRegistry.FileTransfer.Launch | public/network/fileTransfer.js:74-76 | the fresh record is registered last; its socket is connecting, or, when `connect` refused the port, unconnected with the promise rejected |
| TransferRegistry.FileTransfer.OnConnect | public/network/fileTransfer.js:76-88 | the socket is connected; the first write is the framed header of the record's id, name, size and checksum, and nothing is written exactly when the peer's name cannot be printed or the checksum throws |
| TransferRegistry.FileTransfer.OnChunk | public/network/fileTransfer.js:93-104 | `bytesSent` grows by the chunk length and progress is emitted with it |
| TransferRegistry.FileTransfer.OnEnd | public/network/fileTransfer.js:106-117 | completion is emitted, the id is unregistered, the socket ended and the promise resolved |
| TransferRegistry.FileTransfer.OnReadError | public/network/fileTransfer.js:119-130 | an error is emitted, the id is unregistered, the socket destroyed and the promise rejected |
| TransferRegistry.FileTransfer.OnSocketError | public/network/fileTransfer.js:135-145 | an error is emitted, the id is unregistered, the socket is destroyed (Node emits `error` from `destroy`) and the promise rejected |
| TransferRegistry.FileTransfer.OnClose | public/network/fileTransfer.js:147-149 | the id is unregistered and the socket is destroyed, as Node has it when `close` fires |
| TransferRegistry.FileTransfer.Unregister | public/network/fileTransfer.js:114 | the id leaves the registry, the other keys keep their order, and the invariant holds |
| TransferRegistry.FileTransfer.Stop | public/network/fileTransfer.js:37-50 | the server is closed, the socket of every registered transfer is destroyed and no other socket; the registry is emptied |
| TransferRegistry.FileTransfer.GetActiveTransfers | public/network/fileTransfer.js:250-252 | the registered records, in insertion order |
| App.FindBy | src/App.js:82-100 | `findIndex` gives -1 exactly when nothing matches, and otherwise the first match |
| App.PeerFound | src/App.js:81-89 | no contract; specified by `PeerFoundPlacement` and `PeerFoundKeepsUnique` |
| App.TransferProgress | src/App.js:99-107 | no contract; specified by `TransferProgressMerge` |
| App.MarkMatching | src/App.js:111-128 | keeps the list length; specified by `MarkMatchingSpec` |
| App.StrictEqTrans | src/App.js:82 | `===` on read values is symmetric and transitive |
| App.PeerFoundPlacement | src/App.js:81-89 | a known id is replaced at its index and the length kept; a new id is appended |
| App.PeerFoundKeepsUnique | src/App.js:81-89 | `peer-found` keeps ids pairwise distinct |
| App.PeerLost | src/App.js:94 | `peer-lost` keeps exactly the entries whose id is not `===` to the lost id |
| App.PeerLostOrder | src/App.js:94 | `peer-lost` keeps the order of the rest, and changes nothing when no entry has the id |
| App.TransferProgressMerge | src/App.js:99-107 | merges into the matching record, with incoming fields winning and the others kept; otherwise appends the data with type "outgoing" |
| App.MarkMatchingSpec | src/App.js:111-128 | the flag is set on exactly the matching records, which also take the data's fields; other records are unchanged |
| App.TransferComplete | src/App.js:110-119 | `transfer-complete` keeps the list length |
| App.TransferError | src/App.js:121-130 | `transfer-error` keeps the list length |
| App.FileReceived | src/App.js:132-138 | `file-received` always appends a record with type "incoming" and progress 0, carrying the data's other fields |
| App.FileReceivedDuplicates | src/App.js:132-138 | receiving a transfer id already listed (compared with `===`) lists it once more: the entries with that id grow by exactly one |
| App.FirstFailure | src/App.js:205-210 | the first send that does not resolve, or the number of paths: every earlier send resolved |
| App.HandleFileSend | src/App.js:198-211 | outside Electron only a warning; otherwise the paths are sent in order up to and including the first that does not resolve; a rejection shows an error notice, and a send that never settles leaves the loop waiting with no notice |
| DeviceList.NatToString | src/components/DeviceList.js:84-86 | decimal digits, with no leading zero |
| DeviceList.DecimalRoundTrip | src/components/DeviceList.js:84-86 | reading the printed number back gives the number |
| DeviceList.FormatLastSeen | src/components/DeviceList.js:79-87 | no contract; specified by the four `LastSeen` lemmas |
| DeviceList.LastSeenJustNow | src/components/DeviceList.js:81-83 | any difference below 10000 ms, negative included, is "Just now" |
| DeviceList.LastSeenSeconds | src/components/DeviceList.js:84 | from 10 s to under 1 min: `floor(diff/1000)`, between 10 and 59, followed by "s ago" |
| DeviceList.LastSeenMinutes | src/components/DeviceList.js:85 | from 1 min to under 1 h: `floor(diff/60000)`, between 1 and 59, followed by "m ago" |
| DeviceList.LastSeenHours | src/components/DeviceList.js:86 | from 1 h on: `floor(diff/3600000)`, at least 1, followed by "h ago" |
| DeviceList.PlatformIconTable | src/components/DeviceList.js:8-23 | the five platforms have distinct icons, none of them the default; every other value gets the default |
| DeviceList.PlatformIcon | src/components/DeviceList.js:8-23 | no contract; specified by `PlatformIconTable` |
| DeviceList.IsSelected | src/components/DeviceList.js:120 | no contract; `selectedPeer?.id === peer.id`, true whenever the card shows the stored object |
| DeviceList.Toggle | src/components/DeviceList.js:121 | no contract; specified by `ToggleSpec`, `ToggleTwice`, `ToggleFreshCopy` and `ToggleWithoutId` |
| DeviceList.ToggleSpec | src/components/DeviceList.js:120-121 | clicking the selected card deselects it whatever its id; clicking a card that is not selected selects that peer, and its card then shows as selected |
| DeviceList.ToggleTwice | src/components/DeviceList.js:121 | two clicks on the same card leave nothing selected, for every peer |
| DeviceList.ToggleWithoutId | src/components/DeviceList.js:121 | a peer without an id can never be selected |
| DeviceList.ToggleFreshCopy | src/components/DeviceList.js:120-121 | once the selected entry is replaced by a fresh copy, a peer with an object or array id no longer shows as selected, and clicking it selects the copy |
| DeviceList.DeviceListView.constructor | src/components/DeviceList.js:5-6 | nothing selected, not transferring |
| DeviceList.DeviceListView.Click | src/components/DeviceList.js:121 | the card click performs the toggle, given whether the card shows the stored object |
| DeviceList.DeviceListView.BeginSendFile | src/components/DeviceList.js:38-42 | refused while transferring or outside Electron; otherwise marks the send as started |
| DeviceList.DeviceListView.FinishSendFile | src/components/DeviceList.js:43-51 | a non-empty choice is sent to the peer; `isTransferring` is reset by `finally` once the awaits return, and stays set exactly when a send was made whose promise never settles |
| TransferStatus.ActiveTransfers | src/components/TransferStatus.js:5 | exactly the transfers neither completed nor failed |
| TransferStatus.IsActive | src/components/TransferStatus.js:5 | no contract; neither `completed` nor `error` is truthy |
| TransferStatus.IsFinished | src/components/TransferStatus.js:6 | no contract; `completed` or `error` is truthy |
| TransferStatus.CompletedTransfers | src/components/TransferStatus.js:6 | exactly the transfers completed or failed |
| TransferStatus.ActiveCompletedPartition | src/components/TransferStatus.js:5-6 | every transfer is in exactly one list, as many times as it is in the transfer list |
| TransferStatus.PartitionKeepsOrder | src/components/TransferStatus.js:5-6 | both lists keep the transfer list's order |
| TransferStatus.TransferIcon | src/components/TransferStatus.js:22-26 | no contract; specified by `TransferIconPrecedence` |
| TransferStatus.TransferTypeText | src/components/TransferStatus.js:28-30 | no contract; specified by `TransferTypeTextSpec` |
| TransferStatus.TransferIconPrecedence | src/components/TransferStatus.js:22-26 | an error shows first, completion only without an error, and direction only on active transfers |
| TransferStatus.TransferTypeTextSpec | src/components/TransferStatus.js:28-30 | "Sending" exactly for "outgoing"; every other value reads "Receiving" |
| TransferStatus.LastN | src/components/TransferStatus.js:102 | `slice(-5)` gives the last five, or all when there are fewer |
| TransferStatus.Reverse | src/components/TransferStatus.js:102 | keeps the length; specified by `ReverseIndex` |
| TransferStatus.RecentTransfers | src/components/TransferStatus.js:102 | no contract; specified by `RecentNewestFirst` |
| TransferStatus.ReverseIndex | src/components/TransferStatus.js:102 | `reverse` puts the i-th from the end at position i |
| TransferStatus.RecentNewestFirst | src/components/TransferStatus.js:102 | the recent list holds at most five entries: the last five finished transfers, newest first |
| FileSelector.FormatFileName | src/components/FileSelector.js:12-15 | the text after the last `/` or `\`, or the whole path; it contains neither separator |
| FileSelector.FormatFileNameWhole | src/components/FileSelector.js:12-15 | a path without separators is shown whole |
| FileSelector.FormatFileNameJoin | src/components/FileSelector.js:12-15 | `dir + sep + name` is shown as `name` |
| FileSelector.LowerChar | src/components/FileSelector.js:18 | an ASCII capital moves up by 32 to its lower case; every other character stays |
| FileSelector.Lower | src/components/FileSelector.js:18 | lower-cases exactly the ASCII capitals and keeps the length |
| FileSelector.LowerIdempotent | src/components/FileSelector.js:18 | lower-casing twice is lower-casing once |
| FileSelector.Extension | src/components/FileSelector.js:18 | the dot-free suffix after the last dot, or the whole name |
| FileSelector.ExtensionOfLower | src/components/FileSelector.js:18 | lower-casing commutes with taking the extension |
| FileSelector.PrototypeKeysNotOwn | src/components/FileSelector.js:19-33 | "constructor" and "\_\_proto\_\_" are lower case and not keys of the table |
| FileSelector.FileIconAsWritten | src/components/FileSelector.js:17-34 | the lookup as written yields an inherited member exactly when the lower-cased extension is a prototype name, and then that member |
| FileSelector.FileIconConstructor | src/components/FileSelector.js:18-33 | `notes.constructor` gets the `Object` function instead of an icon |
| FileSelector.FileIconProto | src/components/FileSelector.js:18-33 | `x.__proto__` gets `Object.prototype` instead of an icon |
| FileSelector.FileIcon | src/components/FileSelector.js:17-34 | the corrected lookup, by own keys only: the icon is the table's or the default, and an extension that is not an own key gives the default |
| FileSelector.FileIconFixed | src/components/FileSelector.js:33 | the own-key lookup agrees with the code except on prototype names, which get the default |
| FileSelector.FileIconIgnoresCase | src/components/FileSelector.js:18 | the lookup as written does not depend on letter case |
| FileSelector.ExtensionAfterDot | src/components/FileSelector.js:18 | the extension of `stem.ext` is `ext`, and a name without a dot is its own extension |
| FileSelector.FileIconByExtension | src/components/FileSelector.js:18-33 | in the lookup as written only the text after the last dot matters; a dot-free name gives its own key's icon, an inherited member for a prototype name, and the default otherwise |
| FileDropZone.DroppedPaths | src/components/FileDropZone.js:27 | exactly the non-empty paths of the dropped files; pathless files are discarded |
| FileDropZone.PathOrName | src/components/FileDropZone.js:39 | the path when it is truthy, otherwise the name |
| FileDropZone.InputPaths | src/components/FileDropZone.js:39 | exactly the non-empty `path \|\| name` values |
| FileDropZone.DroppedPathsConcat | src/components/FileDropZone.js:27 | the dropped paths of joined lists are the joined dropped paths, so order and repeats are kept |
| FileDropZone.InputPathsConcat | src/components/FileDropZone.js:39 | the input's paths of joined lists are the joined paths, so order and repeats are kept |
| FileDropZone.PathsOne | src/components/FileDropZone.js:27-39 | one file gives its non-empty path (or `path \|\| name`) or nothing |
| FileDropZone.InputPathsFallBack | src/components/FileDropZone.js:27-39 | with every path present the input and the drop agree; a file without a path shows under its name |
| FileDropZone.DisplayName | src/components/FileDropZone.js:28 | no contract; specified by `DisplayNameIsFormatFileName` |
| FileDropZone.DisplayNameIsFormatFileName | src/components/FileDropZone.js:28 | the drop zone's name equals the file selector's name for the same path |
| FileDropZone.Entries | src/components/FileDropZone.js:28-40 | one entry per path, in order, named by its last component |
| FileDropZone.PathsOf | src/components/FileDropZone.js:48 | the entries' paths in order |
| FileDropZone.PathsOfEntries | src/components/FileDropZone.js:28-48 | the paths sent are the paths chosen |
| FileDropZone.RemoveAt | src/components/FileDropZone.js:58 | never longer than the list; specified by `RemoveAtExact` |
| FileDropZone.RemoveAtExact | src/components/FileDropZone.js:58 | removes exactly the element at the index and keeps the others in order; an index outside the list changes nothing |
| FileDropZone.DropZoneView.constructor | src/components/FileDropZone.js:6-7 | no files and no peer |
| FileDropZone.DropZoneView.HandleDrop | src/components/FileDropZone.js:21-30 | a non-empty drop replaces the list with the entries of its paths; an empty drop leaves it alone |
| FileDropZone.DropZoneView.HandleFileInputChange | src/components/FileDropZone.js:36-42 | as a drop, with the name standing in for a missing path |
| FileDropZone.DropZoneView.RemoveFile | src/components/FileDropZone.js:57-59 | removes exactly the entry at the index |
| FileDropZone.DropZoneView.ClearFiles | src/components/FileDropZone.js:61-64 | no files and no peer |
| FileDropZone.DropZoneView.SelectPeer | src/components/FileDropZone.js:182 | the clicked peer is selected |
| FileDropZone.DropZoneView.HandleSendFiles | src/components/FileDropZone.js:44-55 | nothing happens without a peer or without files; otherwise the paths go to the peer, and files and peer are cleared unless the send rejects |

## Left out

- Sockets, timers and streams are not modelled as I/O: the UDP socket, multicast membership, both `setInterval` timers, the TCP server and sockets, and the file streams. `Start` and `Stop` only set flags. Datagrams, reads, clocks and file-system answers arrive as parameters.
- Node's event loop is not modelled: the callbacks of a send run in whatever order the caller invokes them.
- `calculateChecksum` (MD5 over the file) is a foreign call, so its result is a parameter: an opaque string, or none when it throws. It is not checked on receipt, as in the code.
- An exception escaping the sender's connect callback is modelled as nothing being written and nothing settling. Node's process-level handling of it is not modelled.
- `JSON.parse`, `JSON.stringify` and UTF-8 decoding of a read are function parameters.
- JSON numbers are integers. Fractional sizes and comparisons against strings are not modelled: `AtLeast` treats a string, array or object size as never reached.
- The model covers `toLowerCase` on ASCII letters only. That is enough for the icon lookup. The only other character whose lower case is an ASCII letter is the Kelvin sign, which becomes `k`, and no key contains `k`.
- `path.join` is modelled without its normalisation (`..`, repeated slashes). As in the code, nothing keeps the name inside the download directory.
- `path.basename` is modelled with POSIX separators only.
- Peers are keyed by value. An object-valued `deviceId`, which a JavaScript `Map` keys by reference, is not distinguished.
- Progress percentages, `formatFileSize`, `formatTransferSpeed` and other floating-point display values are left out. The receiver's events leave out the percentage.
- An exception escaping a `data` listener is modelled as a `crashed` connection, which ignores later reads. Node's process-level handling of it is not modelled.
- Nothing models writes after `end` beyond not storing them.
- React state batching and re-rendering are not modelled: each handler applies its updater at once.
- The drag-over highlight, the DeviceList drop handler and its device-type icon are rendering details and are left out.
- `getLocalIP`, the HTTP servers, QR-code generation, the Electron IPC wiring and the scripts are outside the modelled core.
- TransferReceiver.IncomingConnection.OnData: performs the step as the code is written (`Step`). The corrected step `StepFixed` is stated and proved as a function, but no listener runs it.
- TransferRegistry.FileTransfer.SendFile: requires a fresh transfer id, because `uuidv4()` collisions are not modelled.
- TransferRegistry.ConnectThrows: `Number` on a string is a parameter, fractional ports are not modelled (JSON numbers are integers here), and of an object port only `path` and `port` are read; its other connect options (`host`, `localAddress`, ...) are not modelled.
- DeviceList.DeviceListView.Click: whether the card shows the very object stored in `selectedPeer` is a parameter, because the component does not see how the app rebuilt its `peers` list.
- FileDropZone.DropZoneView.HandleSendFiles: takes whether `onFileSend` rejects as a parameter. A send that never settles (a checksum that throws in the connect callback leaves `sendFile`'s promise pending, so `ipcRenderer.invoke` and `handleFileSend` wait forever) never reaches the clearing lines either; its state is the one `rejects := true` gives: files and peer stay selected.
- DeviceList.DeviceListView.FinishSendFile: the awaited `onFileSelect` and `onFileSend` are collapsed into one step. What `onFileSelect` resolved to is the parameter `chosen`, and whether the send settles is the parameter `settles`; a dialog that never returns is not modelled.

## Findings

| source | as written | input that shows it | evidently intended | confidence | as-written member | corrected member |
|---|---|---|---|---|---|---|
| public/network/discovery.js:117-125 | the announcement literal writes `type` twice, so `deviceInfo.type` ("desktop") overrides "announce" | any announcement, for example from a device with id "A" received by a device with id "B" | the message type stays "announce", with the device type under its own key | high (not executed) | Discovery.AnnouncePayloadRejected | Discovery.AnnounceFixedAccepted |
| public/network/fileTransfer.js:186-214 | the size check is made only in reads after the header | one read holding the header and the whole payload, or a header with `fileSize` 0 and no further read | a header read that already holds the whole file completes the transfer | high (not executed) | TransferReceiver.WholeFrameInOneRead | TransferReceiver.FixedWholeFrameCompletes |
| src/components/FileSelector.js:33 | `iconMap[extension]` also reads inherited members of `Object.prototype` | a file named `notes.constructor` or `x.__proto__` | a name whose extension is not in the table gets the default icon | high (not executed) | FileSelector.FileIconConstructor | FileSelector.FileIconFixed |
