/** The device list: how long ago a peer was seen, the platform icon, the
    card selection, and the guard around sending files to a peer. */
module DeviceList {
  import opened JsValue

  function DigitChar(d: nat): (c: char)
    requires d < 10
    ensures (c as int) - ('0' as int) == d
  {
    "0123456789"[d]
  }

  /** The decimal text of a non-negative integer, as a template literal
      prints it. */
  function NatToString(n: nat): (s: string)
    ensures |s| >= 1
    ensures forall i | 0 <= i < |s| :: '0' <= s[i] <= '9'
    ensures |s| > 1 ==> s[0] != '0'
  {
    if n < 10 then [DigitChar(n)] else NatToString(n / 10) + [DigitChar(n % 10)]
  }

  /** The value of a string of decimal digits. */
  function DecimalValue(s: string): nat
    requires forall i | 0 <= i < |s| :: '0' <= s[i] <= '9'
  {
    if s == [] then 0
    else DecimalValue(s[..|s| - 1]) * 10 + ((s[|s| - 1] as int) - ('0' as int))
  }

  /** Reading back the printed number gives the number. */
  lemma {:induction false} DecimalRoundTrip(n: nat)
    ensures DecimalValue(NatToString(n)) == n
  {
    var s := NatToString(n);
    if n < 10 {
      assert s[..|s| - 1] == [];
    } else {
      assert s[..|s| - 1] == NatToString(n / 10);
      DecimalRoundTrip(n / 10);
      assert n == n / 10 * 10 + n % 10;
    }
  }

  /** `formatLastSeen(timestamp)` at time `now`. The divisions are of a
      positive difference, so truncating and flooring agree. */
  function FormatLastSeen(timestamp: int, now: int): string {
    var diff := now - timestamp;
    if diff < 10000 then "Just now"
    else if diff < 60000 then NatToString(diff / 1000) + "s ago"
    else if diff < 3600000 then NatToString(diff / 60000) + "m ago"
    else NatToString(diff / 3600000) + "h ago"
  }

  /** A label is a whole count of some unit, in decimal digits without a
      leading zero, followed by `unit` and " ago", and names the count of
      complete units in `diff`. */
  predicate CountsUnits(text: string, unit: char, unitMs: nat, diff: int)
    requires unitMs > 0
  {
    && |text| > 5
    && text[|text| - 5..] == [unit] + " ago"
    && (forall i | 0 <= i < |text| - 5 :: '0' <= text[i] <= '9')
    && (|text| == 6 || text[0] != '0')
    && var q := DecimalValue(text[..|text| - 5]);
       q * unitMs <= diff < (q + 1) * unitMs
  }

  lemma CountLabel(q: nat, unit: char, unitMs: nat, diff: int)
    requires unitMs > 0 && q == diff / unitMs && diff >= 0
    ensures CountsUnits(NatToString(q) + [unit] + " ago", unit, unitMs, diff)
    ensures DecimalValue(NatToString(q)) == q
  {
    var text := NatToString(q) + [unit] + " ago";
    assert text[..|text| - 5] == NatToString(q);
    assert text[|text| - 5..] == [unit] + " ago";
    DecimalRoundTrip(q);
    DivBounds(diff, unitMs);
  }

  lemma DivBounds(diff: int, unitMs: nat)
    requires unitMs > 0 && diff >= 0
    ensures (diff / unitMs) * unitMs <= diff < (diff / unitMs + 1) * unitMs
  {
    var q, r := diff / unitMs, diff % unitMs;
    assert diff == q * unitMs + r;
    assert (q + 1) * unitMs == q * unitMs + unitMs;
  }

  /** Anything under ten seconds old, a timestamp in the future included,
      was seen just now. */
  lemma LastSeenJustNow(timestamp: int, now: int)
    requires now - timestamp < 10000
    ensures FormatLastSeen(timestamp, now) == "Just now"
  {
  }

  /** From ten seconds to under a minute: whole seconds, 10 to 59. */
  lemma LastSeenSeconds(timestamp: int, now: int)
    requires 10000 <= now - timestamp < 60000
    ensures var text := FormatLastSeen(timestamp, now);
      && CountsUnits(text, 's', 1000, now - timestamp)
      && 10 <= DecimalValue(text[..|text| - 5]) < 60
  {
    var q := (now - timestamp) / 1000;
    assert FormatLastSeen(timestamp, now) == NatToString(q) + ['s'] + " ago";
    CountLabel(q, 's', 1000, now - timestamp);
  }

  /** From a minute to under an hour: whole minutes, 1 to 59. */
  lemma LastSeenMinutes(timestamp: int, now: int)
    requires 60000 <= now - timestamp < 3600000
    ensures var text := FormatLastSeen(timestamp, now);
      && CountsUnits(text, 'm', 60000, now - timestamp)
      && 1 <= DecimalValue(text[..|text| - 5]) < 60
  {
    var q := (now - timestamp) / 60000;
    assert FormatLastSeen(timestamp, now) == NatToString(q) + ['m'] + " ago";
    CountLabel(q, 'm', 60000, now - timestamp);
  }

  /** From an hour on: whole hours, at least 1, without an upper bucket. */
  lemma LastSeenHours(timestamp: int, now: int)
    requires now - timestamp >= 3600000
    ensures var text := FormatLastSeen(timestamp, now);
      && CountsUnits(text, 'h', 3600000, now - timestamp)
      && 1 <= DecimalValue(text[..|text| - 5])
  {
    var q := (now - timestamp) / 3600000;
    assert FormatLastSeen(timestamp, now) == NatToString(q) + ['h'] + " ago";
    CountLabel(q, 'h', 3600000, now - timestamp);
  }

  const DefaultPlatformIcon: string := "💻"

  /** `getPlatformIcon`: five known platforms, a default for anything else. */
  function PlatformIcon(platform: Prop): (icon: string)
  {
    if platform == Val(JStr("win32")) then "🪟"
    else if platform == Val(JStr("darwin")) then "🍎"
    else if platform == Val(JStr("linux")) then "🐧"
    else if platform == Val(JStr("android")) then "🤖"
    else if platform == Val(JStr("ios")) then "📱"
    else DefaultPlatformIcon
  }

  const KnownPlatforms: seq<string> := ["win32", "darwin", "linux", "android", "ios"]

  /** Each known platform has an icon of its own, different from the
      default; every other value, `undefined` and non-strings included, gets
      the default. */
  lemma PlatformIconTable(platform: Prop)
    ensures forall i, j | 0 <= i < j < |KnownPlatforms| ::
      PlatformIcon(Val(JStr(KnownPlatforms[i]))) != PlatformIcon(Val(JStr(KnownPlatforms[j])))
    ensures forall i | 0 <= i < |KnownPlatforms| ::
      PlatformIcon(Val(JStr(KnownPlatforms[i]))) != DefaultPlatformIcon
    ensures (PlatformIcon(platform) == DefaultPlatformIcon) <==>
      !(exists i | 0 <= i < |KnownPlatforms| :: platform == Val(JStr(KnownPlatforms[i])))
  {
    var icons := ["🪟", "🍎", "🐧", "🤖", "📱"];
    assert forall i | 0 <= i < 5 :: PlatformIcon(Val(JStr(KnownPlatforms[i]))) == icons[i];
    assert "🪟" != "💻" && "🍎" != "💻" && "🐧" != "💻" && "🤖" != "💻" && "📱" != "💻";
    if PlatformIcon(platform) != DefaultPlatformIcon {
      var i :| 0 <= i < 5 && platform == Val(JStr(KnownPlatforms[i])) by {
        if platform == Val(JStr("win32")) { assert platform == Val(JStr(KnownPlatforms[0])); }
        else if platform == Val(JStr("darwin")) { assert platform == Val(JStr(KnownPlatforms[1])); }
        else if platform == Val(JStr("linux")) { assert platform == Val(JStr(KnownPlatforms[2])); }
        else if platform == Val(JStr("android")) { assert platform == Val(JStr(KnownPlatforms[3])); }
        else { assert platform == Val(JStr(KnownPlatforms[4])); }
      }
    }
  }

  /** The card's `selected` test, `selectedPeer?.id === peer.id`. With
      nothing selected the left side is `undefined`. `same` says the card's
      peer is the very object stored by the click that selected it, which
      holds until a `peer-found` replaces that list entry with a fresh copy:
      then both sides read one property of one object and are identical,
      whatever the id. Otherwise the two sides come from different copies. */
  predicate IsSelected(selected: Option<Record>, peer: Record, same: bool)
    requires same ==> selected == Some(peer)
  {
    var sid := if selected.Some? then Field(selected.value, "id") else Undefined;
    same || StrictEq(sid, Field(peer, "id"))
  }

  /** A click on a card: deselect it if it is the selected one, select it
      otherwise. */
  function Toggle(selected: Option<Record>, peer: Record, same: bool): Option<Record>
    requires same ==> selected == Some(peer)
  {
    if IsSelected(selected, peer, same) then None else Some(peer)
  }

  /** Clicking the selected card clears the selection, whatever its id;
      clicking any other card selects exactly that peer, whose card then
      shows as selected. */
  lemma ToggleSpec(selected: Option<Record>, peer: Record, same: bool)
    requires same ==> selected == Some(peer)
    ensures IsSelected(selected, peer, same) ==> Toggle(selected, peer, same) == None
    ensures !IsSelected(selected, peer, same) ==> Toggle(selected, peer, same) == Some(peer)
    ensures same ==> Toggle(selected, peer, same) == None
    ensures Toggle(selected, peer, same).Some? ==> IsSelected(Toggle(selected, peer, same), peer, true)
  {
  }

  /** Two clicks on the same card leave the selection empty again: the
      second click is on the stored object whenever the first stored one. */
  lemma ToggleTwice(peer: Record)
    ensures var first := Toggle(None, peer, false);
      Toggle(first, peer, first.Some?) == None
  {
  }

  /** Once a `peer-found` has replaced the selected entry with a fresh copy,
      a peer whose id is an object or an array no longer shows as selected,
      and clicking its card selects the copy instead of deselecting. */
  lemma ToggleFreshCopy(peer: Record)
    requires "id" in peer && !IsPrimitive(peer["id"])
    ensures !IsSelected(Some(peer), peer, false)
    ensures Toggle(Some(peer), peer, false) == Some(peer)
  {
  }

  /** A peer without an id can never be selected: with nothing selected,
      `undefined === undefined` already counts as a match. */
  lemma ToggleWithoutId(peer: Record)
    requires "id" !in peer
    ensures Toggle(None, peer, false) == None
  {
  }

  /** The device list's own state. `sends` records each call of
      `onFileSend` this component makes. */
  class DeviceListView {
    var selectedPeer: Option<Record>
    var isTransferring: bool
    var sends: seq<(seq<string>, Record)>

    constructor ()
      ensures selectedPeer == None && !isTransferring && sends == []
    {
      selectedPeer, isTransferring, sends := None, false, [];
    }

    /** The card's click handler; `same` says the card shows the very
        object stored in `selectedPeer`. */
    method Click(peer: Record, same: bool)
      requires same ==> selectedPeer == Some(peer)
      modifies this`selectedPeer
      ensures selectedPeer == Toggle(old(selectedPeer), peer, same)
    {
      selectedPeer := Toggle(selectedPeer, peer, same);
    }

    /** `handleSendFile` up to its first `await`: refused while a send is in
        progress or outside Electron, otherwise marks the send as started. */
    method BeginSendFile(isElectron: bool) returns (started: bool)
      modifies this`isTransferring
      ensures started == (!old(isTransferring) && isElectron)
      ensures isTransferring == (old(isTransferring) || started)
    {
      if isTransferring || !isElectron {
        return false;
      }
      isTransferring := true;
      started := true;
    }

    /** The rest of a started `handleSendFile`: `chosen` is what
        `onFileSelect` resolved to (`None` if it threw). A non-empty
        choice is sent; `settles` says whether that send's promise ever
        settles (a rejection is caught, so it acts as resolving). Once the
        awaits are past, `finally` clears the flag; a send that never
        settles leaves it set, and every send button disabled. */
    method FinishSendFile(peer: Record, chosen: Option<seq<string>>, settles: bool)
      requires isTransferring
      modifies this`isTransferring, this`sends
      ensures isTransferring <==> chosen.Some? && |chosen.value| > 0 && !settles
      ensures sends == old(sends) + if chosen.Some? && |chosen.value| > 0 then [(chosen.value, peer)] else []
    {
      if chosen.Some? && |chosen.value| > 0 {
        sends := sends + [(chosen.value, peer)];
        if !settles {
          return;
        }
      }
      isTransferring := false;
    }
  }
}
