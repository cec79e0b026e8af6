/** The wire format of one file transfer over TCP: a JSON header line
    terminated by a single newline, then the raw file bytes. */
module TransferFraming {
  import opened JsValue

  /** A byte of a Node `Buffer`. */
  newtype byte = x: int | 0 <= x < 256

  /** `s.indexOf(c)`: the first position of `c`, or -1. */
  function IndexOf(s: string, c: char): (r: int)
    ensures r == -1 <==> c !in s
    ensures r != -1 ==> 0 <= r < |s| && s[r] == c && c !in s[..r]
  {
    if s == [] then -1
    else if s[0] == c then 0
    else
      var k := IndexOf(s[1..], c);
      if k == -1 then -1
      else
        assert s[..k + 1] == [s[0]] + s[1..][..k];
        k + 1
  }

  /** The receiver's split of its buffer at the first newline: the header
      before it and the remainder after it, or nothing while no newline has
      arrived. */
  function SplitHeader(buffer: string): (r: Option<(string, string)>)
    ensures r.None? <==> '\n' !in buffer
    ensures r.Some? ==> buffer == r.value.0 + "\n" + r.value.1 && '\n' !in r.value.0
  {
    var i := IndexOf(buffer, '\n');
    if i == -1 then None
    else
      assert buffer == buffer[..i] + "\n" + buffer[i + 1..];
      Some((buffer[..i], buffer[i + 1..]))
  }

  /** The sender's first write: the serialised header and one newline. */
  function Frame(header: string): (f: string)
    ensures |f| == |header| + 1 && f[|header|] == '\n'
  {
    header + "\n"
  }

  /** The newline is found at the header's length whenever the header has
      none of its own, whatever follows it. */
  lemma IndexOfAfterHeader(header: string, rest: string)
    requires '\n' !in header
    ensures IndexOf(header + "\n" + rest, '\n') == |header|
  {
    var s := header + "\n" + rest;
    assert s[|header|] == '\n';
    assert s[..|header|] == header;
  }

  /** Round trip: a header without a newline, framed and followed by any
      payload, splits back into exactly that header and that payload. */
  lemma FrameRoundTrip(header: string, payload: string)
    requires '\n' !in header
    ensures SplitHeader(Frame(header) + payload) == Some((header, payload))
  {
    var s := Frame(header) + payload;
    assert s == header + "\n" + payload;
    IndexOfAfterHeader(header, payload);
    assert s[..|header|] == header;
    assert s[|header| + 1..] == payload;
  }

  /** The split depends only on where the first newline is: more bytes
      appended after it only lengthen the remainder. */
  lemma SplitHeaderExtend(buffer: string, more: string)
    requires '\n' in buffer
    ensures var (h, r) := SplitHeader(buffer).value;
      SplitHeader(buffer + more) == Some((h, r + more))
  {
    var (h, r) := SplitHeader(buffer).value;
    assert buffer + more == h + "\n" + (r + more);
    IndexOfAfterHeader(h, r + more);
    var s := buffer + more;
    assert s[..|h|] == h;
    assert s[|h| + 1..] == r + more;
  }

  /** The UTF-16 code units of one character, as a JavaScript string holds
      it: a character above U+FFFF is a surrogate pair. */
  function UnitsOf(c: char): (u: seq<int>)
    ensures |u| == (if (c as int) < 0x1_0000 then 1 else 2)
    ensures |u| == 1 ==> u[0] == c as int
    ensures |u| == 2 ==> && 0xD800 <= u[0] < 0xDC00 && 0xDC00 <= u[1] < 0xE000
                         && (u[0] - 0xD800) * 0x400 + (u[1] - 0xDC00) + 0x1_0000 == c as int
  {
    var n := c as int;
    if n < 0x1_0000 then [n]
    else [0xD800 + (n - 0x1_0000) / 0x400, 0xDC00 + (n - 0x1_0000) % 0x400]
  }

  /** The UTF-16 code units of a string; `s.length` in JavaScript is the
      length of this sequence. */
  function CodeUnits(s: string): (u: seq<int>)
    ensures |u| >= |s|
    ensures forall i | 0 <= i < |u| :: 0 <= u[i] < 0x1_0000
  {
    if s == [] then [] else UnitsOf(s[0]) + CodeUnits(s[1..])
  }

  /** Without characters above U+FFFF the code units are the characters'
      codes. */
  lemma {:induction false} CodeUnitsNarrow(s: string)
    requires forall i | 0 <= i < |s| :: (s[i] as int) < 0x1_0000
    ensures |CodeUnits(s)| == |s|
    ensures forall i | 0 <= i < |s| :: CodeUnits(s)[i] == s[i] as int
  {
    if s != [] {
      CodeUnitsNarrow(s[1..]);
      assert forall i | 0 < i < |s| :: s[1..][i - 1] == s[i];
    }
  }

  /** `Buffer.from(s, 'binary')`: one byte per UTF-16 code unit, its value
      taken modulo 256. */
  function Latin1(s: string): (bytes: seq<byte>)
    ensures |bytes| == |CodeUnits(s)| && |bytes| >= |s|
    ensures forall i | 0 <= i < |bytes| :: bytes[i] as int == CodeUnits(s)[i] % 256
  {
    var u := CodeUnits(s);
    seq(|u|, i requires 0 <= i < |u| => (u[i] % 256) as byte)
  }

  /** Characters below 256 keep their code, so a remainder of such
      characters is written byte for byte. */
  lemma Latin1Narrow(s: string)
    requires forall i | 0 <= i < |s| :: (s[i] as int) < 256
    ensures |Latin1(s)| == |s|
    ensures forall i | 0 <= i < |s| :: Latin1(s)[i] as int == s[i] as int
  {
    CodeUnitsNarrow(s);
  }

  /** Wider characters do not survive: two different remainders can be
      written as the same bytes. */
  lemma Latin1Lossy()
    ensures Latin1("Ł") == Latin1("A")
  {
    assert 'Ł' as int % 256 == 'A' as int;
  }

  /** A character above U+FFFF is written as the low bytes of its two
      surrogates: U+1F600 (surrogates D83D DE00) becomes `3D 00`, two
      bytes for one character. */
  lemma Latin1SurrogatePair()
    ensures Latin1("\U{1F600}") == [0x3D, 0x00]
  {
    assert CodeUnits("\U{1F600}") == UnitsOf('\U{1F600}') + CodeUnits("");
  }

  /** The header object `sendFile` writes. The checksum is computed by the
      caller and carried as an opaque string. */
  function Metadata(transferId: string, fileName: string, fileSize: nat, checksum: string): (m: Json)
    ensures Get(m, "type") == Val(JStr("file-metadata"))
    ensures Get(m, "transferId") == Val(JStr(transferId))
    ensures Get(m, "fileName") == Val(JStr(fileName))
    ensures Get(m, "fileSize") == Val(JNum(fileSize))
    ensures Get(m, "checksum") == Val(JStr(checksum))
  {
    JObj(map["type" := JStr("file-metadata"),
             "transferId" := JStr(transferId),
             "fileName" := JStr(fileName),
             "fileSize" := JNum(fileSize),
             "checksum" := JStr(checksum)])
  }
}
