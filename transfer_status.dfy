/** The transfer panel: the split of the transfer list into active and
    finished transfers, the icon and direction text of each, and the short
    list of recent finished transfers. */
module TransferStatus {
  import opened JsValue

  /** `!t.completed && !t.error`. */
  predicate IsActive(t: Record) {
    !Truthy(Field(t, "completed")) && !Truthy(Field(t, "error"))
  }

  /** `t.completed || t.error`. */
  predicate IsFinished(t: Record) {
    Truthy(Field(t, "completed")) || Truthy(Field(t, "error"))
  }

  function ActiveTransfers(transfers: seq<Record>): (r: seq<Record>)
    ensures forall t :: t in r <==> t in transfers && IsActive(t)
  {
    FilterMembers(transfers, IsActive);
    Filter(transfers, IsActive)
  }

  function CompletedTransfers(transfers: seq<Record>): (r: seq<Record>)
    ensures forall t :: t in r <==> t in transfers && IsFinished(t)
  {
    FilterMembers(transfers, IsFinished);
    Filter(transfers, IsFinished)
  }

  /** Every transfer is in exactly one of the two lists, as often as it is
      in the transfer list. */
  lemma ActiveCompletedPartition(transfers: seq<Record>)
    ensures multiset(ActiveTransfers(transfers)) + multiset(CompletedTransfers(transfers)) == multiset(transfers)
    ensures |ActiveTransfers(transfers)| + |CompletedTransfers(transfers)| == |transfers|
    ensures forall t | t in transfers :: (t in ActiveTransfers(transfers)) != (t in CompletedTransfers(transfers))
  {
    FilterPartition(transfers, IsActive, IsFinished);
  }

  /** Both lists keep the order of the transfer list: appending transfers
      appends to each list what it keeps of them. */
  lemma PartitionKeepsOrder(a: seq<Record>, b: seq<Record>)
    ensures ActiveTransfers(a + b) == ActiveTransfers(a) + ActiveTransfers(b)
    ensures CompletedTransfers(a + b) == CompletedTransfers(a) + CompletedTransfers(b)
  {
    FilterConcat(a, b, IsActive);
    FilterConcat(a, b, IsFinished);
  }

  /** `getTransferIcon`: an error first, then completion, then direction. */
  function TransferIcon(t: Record): string {
    if Truthy(Field(t, "error")) then "❌"
    else if Truthy(Field(t, "completed")) then "✅"
    else if StrictEq(Field(t, "type"), Val(JStr("outgoing"))) then "📤"
    else "📥"
  }

  /** An error shows as an error even on a completed transfer; completion
      shows only without an error; an active transfer shows its direction,
      a finished one never does. */
  lemma TransferIconPrecedence(t: Record)
    ensures TransferIcon(t) == "❌" <==> Truthy(Field(t, "error"))
    ensures TransferIcon(t) == "✅" <==> !Truthy(Field(t, "error")) && Truthy(Field(t, "completed"))
    ensures IsActive(t) <==> TransferIcon(t) in {"📤", "📥"}
    ensures IsActive(t) ==> (TransferIcon(t) == "📤" <==> Field(t, "type") == Val(JStr("outgoing")))
  {
    assert "❌" != "✅" && "❌" != "📤" && "❌" != "📥" && "✅" != "📤" && "✅" != "📥" && "📤" != "📥";
  }

  /** `getTransferTypeText`. */
  function TransferTypeText(transferType: Prop): string {
    if StrictEq(transferType, Val(JStr("outgoing"))) then "Sending" else "Receiving"
  }

  /** "Sending" exactly for the string 'outgoing'; anything else, a missing
      type included, reads as receiving. */
  lemma TransferTypeTextSpec(transferType: Prop)
    ensures TransferTypeText(transferType) == "Sending" <==> transferType == Val(JStr("outgoing"))
    ensures TransferTypeText(transferType) == "Receiving" <==> transferType != Val(JStr("outgoing"))
  {
  }

  /** `s.slice(-n)` for n > 0. */
  function LastN<T>(s: seq<T>, n: nat): (r: seq<T>)
    ensures |r| == if |s| < n then |s| else n
    ensures r == s[|s| - |r|..]
  {
    if |s| <= n then s else s[|s| - n..]
  }

  /** `Array.prototype.reverse` on a copy. */
  function Reverse<T>(s: seq<T>): (r: seq<T>)
    ensures |r| == |s|
  {
    if s == [] then [] else Reverse(s[1..]) + [s[0]]
  }

  lemma {:induction false} ReverseIndex<T>(s: seq<T>)
    ensures forall i | 0 <= i < |s| :: Reverse(s)[i] == s[|s| - 1 - i]
  {
    if s != [] {
      var tail := s[1..];
      ReverseIndex(tail);
      forall i | 0 <= i < |s| ensures Reverse(s)[i] == s[|s| - 1 - i] {
        if i < |tail| {
          assert Reverse(s)[i] == Reverse(tail)[i];
          assert tail[|tail| - 1 - i] == s[|s| - 1 - i];
        }
      }
    }
  }

  /** The recent list: `completedTransfers.slice(-5).reverse()`. */
  function RecentTransfers(transfers: seq<Record>): seq<Record> {
    Reverse(LastN(CompletedTransfers(transfers), 5))
  }

  /** At most five entries: the last five finished transfers, newest first. */
  lemma RecentNewestFirst(transfers: seq<Record>)
    ensures var c := CompletedTransfers(transfers);
      var r := RecentTransfers(transfers);
      && |r| == (if |c| < 5 then |c| else 5)
      && forall i | 0 <= i < |r| :: r[i] == c[|c| - 1 - i]
  {
    ReverseIndex(LastN(CompletedTransfers(transfers), 5));
  }
}
