/** The state updaters of the top-level UI component: the peer list and the
    transfer list it rebuilds on every event forwarded from the main
    process, and the loop that sends a batch of files. Records are the
    plain objects the events carry. */
module App {
  import opened JsValue

  /** `list.findIndex(r => r[key] === v)`. */
  function FindBy(list: seq<Record>, key: string, v: Prop): (r: int)
    ensures -1 <= r < |list|
    ensures r == -1 <==> forall i | 0 <= i < |list| :: !StrictEq(Field(list[i], key), v)
    ensures r != -1 ==> StrictEq(Field(list[r], key), v)
    ensures r != -1 ==> forall i | 0 <= i < r :: !StrictEq(Field(list[i], key), v)
  {
    if list == [] then -1
    else if StrictEq(Field(list[0], key), v) then 0
    else
      var k := FindBy(list[1..], key, v);
      if k == -1 then -1 else k + 1
  }

  /** `===` on values read from records is symmetric and transitive. */
  lemma StrictEqTrans(a: Prop, b: Prop, c: Prop)
    ensures StrictEq(a, b) == StrictEq(b, a)
    ensures StrictEq(a, b) && StrictEq(b, c) ==> StrictEq(a, c)
  {
  }

  /** The `peer-found` updater: replace the entry with the same id in
      place, or append the peer. */
  function PeerFound(peers: seq<Record>, peer: Record): seq<Record> {
    var i := FindBy(peers, "id", Field(peer, "id"));
    if i != -1 then peers[i := peer] else peers + [peer]
  }

  /** A known id is replaced at its index and the length is kept; a new id
      is appended at the end. */
  lemma PeerFoundPlacement(peers: seq<Record>, peer: Record)
    ensures var r := PeerFound(peers, peer);
      var i := FindBy(peers, "id", Field(peer, "id"));
      && (i != -1 ==> |r| == |peers| && r[i] == peer
                      && forall j | 0 <= j < |peers| && j != i :: r[j] == peers[j])
      && (i == -1 ==> r == peers + [peer])
  {
  }

  /** No two entries have `===` ids. */
  predicate UniqueIds(peers: seq<Record>) {
    forall i, j | 0 <= i < j < |peers| :: !StrictEq(Field(peers[i], "id"), Field(peers[j], "id"))
  }

  /** `peer-found` keeps ids unique. */
  lemma PeerFoundKeepsUnique(peers: seq<Record>, peer: Record)
    requires UniqueIds(peers)
    ensures UniqueIds(PeerFound(peers, peer))
  {
    var r := PeerFound(peers, peer);
    var v := Field(peer, "id");
    var i := FindBy(peers, "id", v);
    if i != -1 {
      forall a, b | 0 <= a < b < |r|
        ensures !StrictEq(Field(r[a], "id"), Field(r[b], "id"))
      {
        if a == i {
          StrictEqTrans(Field(peers[b], "id"), v, Field(peers[i], "id"));
          StrictEqTrans(v, Field(peers[b], "id"), Field(peers[i], "id"));
        } else if b == i {
          StrictEqTrans(Field(peers[a], "id"), v, Field(peers[i], "id"));
        }
      }
    } else {
      forall a, b | 0 <= a < b < |r|
        ensures !StrictEq(Field(r[a], "id"), Field(r[b], "id"))
      {
        if b == |peers| {
          StrictEqTrans(v, Field(peers[a], "id"), v);
        }
      }
    }
  }

  /** The `peer-lost` updater: keep the entries whose id is not `peerId`. */
  function PeerLost(peers: seq<Record>, peerId: Prop): (r: seq<Record>)
    ensures forall p :: p in r <==> p in peers && !StrictEq(Field(p, "id"), peerId)
  {
    FilterMembers(peers, p => !StrictEq(Field(p, "id"), peerId));
    Filter(peers, p => !StrictEq(Field(p, "id"), peerId))
  }

  /** `peer-lost` removes every entry with that id, keeps the others in
      their order, and changes nothing when no entry has it. */
  lemma PeerLostOrder(a: seq<Record>, b: seq<Record>, peerId: Prop)
    ensures PeerLost(a + b, peerId) == PeerLost(a, peerId) + PeerLost(b, peerId)
    ensures (forall i | 0 <= i < |a| :: !StrictEq(Field(a[i], "id"), peerId)) ==> PeerLost(a, peerId) == a
  {
    var keep := (p: Record) => !StrictEq(Field(p, "id"), peerId);
    FilterConcat(a, b, keep);
    if forall i | 0 <= i < |a| :: !StrictEq(Field(a[i], "id"), peerId) {
      FilterKeepsAll(a, keep);
    }
  }

  /** The `transfer-progress` updater: merge the data into the record with
      the same transfer id (incoming fields win), or append it as an
      outgoing transfer. */
  function TransferProgress(transfers: seq<Record>, data: Record): seq<Record> {
    var i := FindBy(transfers, "transferId", Field(data, "transferId"));
    if i != -1 then transfers[i := transfers[i] + data]
    else transfers + [data["type" := JStr("outgoing")]]
  }

  lemma TransferProgressMerge(transfers: seq<Record>, data: Record)
    ensures var r := TransferProgress(transfers, data);
      var i := FindBy(transfers, "transferId", Field(data, "transferId"));
      && (i != -1 ==>
            && |r| == |transfers|
            && r[i].Keys == transfers[i].Keys + data.Keys
            && (forall k | k in data :: r[i][k] == data[k])
            && (forall k | k in transfers[i] && k !in data :: r[i][k] == transfers[i][k])
            && (forall j | 0 <= j < |transfers| && j != i :: r[j] == transfers[j]))
      && (i == -1 ==>
            && |r| == |transfers| + 1
            && r[..|transfers|] == transfers
            && r[|transfers|]["type"] == JStr("outgoing")
            && (forall k | k in data && k != "type" :: r[|transfers|][k] == data[k]))
  {
  }

  /** `{ ...t, ...data, [flag]: true }` on the records whose transfer id
      matches, every other record as it was. */
  function MarkMatching(transfers: seq<Record>, data: Record, flag: string): (r: seq<Record>)
    ensures |r| == |transfers|
  {
    seq(|transfers|, i requires 0 <= i < |transfers| =>
      if StrictEq(Field(transfers[i], "transferId"), Field(data, "transferId"))
      then (transfers[i] + data)[flag := JBool(true)]
      else transfers[i])
  }

  /** The flag is set on exactly the matching records, which also take the
      data's fields; all other records are left as they were. */
  lemma MarkMatchingSpec(transfers: seq<Record>, data: Record, flag: string)
    ensures var r := MarkMatching(transfers, data, flag);
      forall i | 0 <= i < |transfers| ::
        if StrictEq(Field(transfers[i], "transferId"), Field(data, "transferId"))
        then && Field(r[i], flag) == Val(JBool(true))
             && (forall k | k in data && k != flag :: r[i][k] == data[k])
             && (forall k | k in transfers[i] && k !in data && k != flag :: r[i][k] == transfers[i][k])
        else r[i] == transfers[i]
  {
  }

  /** The `transfer-complete` updater. */
  function TransferComplete(transfers: seq<Record>, data: Record): (r: seq<Record>)
    ensures |r| == |transfers|
  {
    MarkMatching(transfers, data, "completed")
  }

  /** The `transfer-error` updater. */
  function TransferError(transfers: seq<Record>, data: Record): (r: seq<Record>)
    ensures |r| == |transfers|
  {
    MarkMatching(transfers, data, "error")
  }

  /** The `file-received` updater: always append, as incoming with
      progress 0, even when the transfer id is already listed. */
  function FileReceived(transfers: seq<Record>, data: Record): (r: seq<Record>)
    ensures |r| == |transfers| + 1 && r[..|transfers|] == transfers
    ensures Field(r[|transfers|], "type") == Val(JStr("incoming"))
    ensures Field(r[|transfers|], "progress") == Val(JNum(0))
    ensures forall k | k in data && k != "type" && k != "progress" :: Field(r[|transfers|], k) == Val(data[k])
  {
    transfers + [data + map["type" := JStr("incoming"), "progress" := JNum(0)]]
  }

  /** Receiving the same file twice lists it twice: the entries whose
      `transferId` is `===` to the new one's grow by one. */
  lemma FileReceivedDuplicates(transfers: seq<Record>, data: Record)
    requires exists i | 0 <= i < |transfers| :: StrictEq(Field(transfers[i], "transferId"), Field(data, "transferId"))
    ensures var r := FileReceived(transfers, data);
      var same := (t: Record) => StrictEq(Field(t, "transferId"), Field(data, "transferId"));
      |Filter(r, same)| == |Filter(transfers, same)| + 1
  {
    var same := (t: Record) => StrictEq(Field(t, "transferId"), Field(data, "transferId"));
    var r := FileReceived(transfers, data);
    assert r == transfers + [r[|transfers|]];
    FilterConcat(transfers, [r[|transfers|]], same);
    assert Field(r[|transfers|], "transferId") == Field(data, "transferId");
    var i :| 0 <= i < |transfers| && StrictEq(Field(transfers[i], "transferId"), Field(data, "transferId"));
    assert same(r[|transfers|]);
    assert Filter([r[|transfers|]], same) == [r[|transfers|]];
  }

  /** A notification shown by the UI. */
  datatype Notice = Notice(kind: string, text: string)

  /** How the promise of one `sendFile` settles: it resolves, rejects with
      a message, or never settles (its connect callback threw). */
  datatype Settled = Sent | Failed(message: string) | Pending

  /** The position of the first send at or after `from` that does not
      resolve, or `n` when all of them do. */
  function FirstFailure(result: nat -> Settled, from: nat, n: nat): (k: nat)
    requires from <= n
    ensures from <= k <= n
    ensures forall i | from <= i < k :: result(i).Sent?
    ensures k < n ==> !result(k).Sent?
    decreases n - from
  {
    if from == n then n
    else if !result(from).Sent? then from
    else FirstFailure(result, from + 1, n)
  }

  /** `handleFileSend`: outside Electron only a warning; otherwise send the
      paths one after another, waiting for each, and stop at the first that
      rejects. `result(i)` is how the `i`-th send settles. Returns the paths
      attempted, the notification shown, if any, and whether the loop is
      left waiting on a send that never settles, which leaves the later
      paths unsent and nothing notified. */
  method HandleFileSend(paths: seq<string>, isElectron: bool, result: nat -> Settled)
    returns (attempted: seq<string>, notice: Option<Notice>, waiting: bool)
    ensures !isElectron ==>
      && attempted == [] && !waiting
      && notice == Some(Notice("warning", "File sending only available in Electron app"))
    ensures isElectron ==>
      var k := FirstFailure(result, 0, |paths|);
      && attempted == paths[..if k < |paths| then k + 1 else k]
      && (waiting <==> k < |paths| && result(k).Pending?)
      && (k < |paths| && result(k).Failed? ==> notice == Some(Notice("error", "Failed to send file: " + result(k).message)))
      && (k == |paths| || result(k).Pending? ==> notice == None)
  {
    if !isElectron {
      return [], Some(Notice("warning", "File sending only available in Electron app")), false;
    }
    attempted, notice, waiting := [], None, false;
    var i := 0;
    while i < |paths|
      invariant 0 <= i <= |paths|
      invariant attempted == paths[..i]
      invariant forall j | 0 <= j < i :: result(j).Sent?
      invariant notice == None && !waiting
    {
      attempted := attempted + [paths[i]];
      var outcome := result(i);
      if !outcome.Sent? {
        if outcome.Failed? {
          notice := Some(Notice("error", "Failed to send file: " + outcome.message));
        } else {
          waiting := true;
        }
        FirstFailureAt(result, 0, i, |paths|);
        assert attempted == paths[..i + 1];
        return;
      }
      i := i + 1;
    }
    FirstFailureNone(result, 0, |paths|);
  }

  lemma {:induction false} FirstFailureAt(result: nat -> Settled, from: nat, k: nat, n: nat)
    requires from <= k < n && !result(k).Sent?
    requires forall j | from <= j < k :: result(j).Sent?
    ensures FirstFailure(result, from, n) == k
    decreases k - from
  {
    if from < k {
      FirstFailureAt(result, from + 1, k, n);
    }
  }

  lemma {:induction false} FirstFailureNone(result: nat -> Settled, from: nat, n: nat)
    requires from <= n
    requires forall j | from <= j < n :: result(j).Sent?
    ensures FirstFailure(result, from, n) == n
    decreases n - from
  {
    if from < n {
      FirstFailureNone(result, from + 1, n);
    }
  }
}
