/** The server side of the WebSocket opening handshake (section 4.2.1 of
    RFC 6455 for the checks on the client's request, section 4.2.2 for the
    101 response), as Upgrade in test/evio_server/evio_server.go does it.
    The token test and the Sec-WebSocket-Accept computation are parameters. */
module Handshake {
  import opened FrameFormat

  datatype Option<T> = None | Some(value: T)

  /** What Upgrade reads of a parsed HTTP request: whether its method is
      GET, and its header values by name. */
  datatype Request = Request(isGet: bool, headers: map<string, seq<byte>>)

  /** Upgrade's two outcomes: the response bytes, or badHandshake. */
  datatype UpgradeResult = Upgraded(response: seq<byte>) | BadHandshake

  /** Header.Peek: the value of a header, empty when it is absent. */
  function Peek(r: Request, name: string): seq<byte>
  {
    if name in r.headers then r.headers[name] else []
  }

  /** Every character of `s` fits in one byte. */
  predicate Latin1(s: string)
  {
    forall i | 0 <= i < |s| :: s[i] as int < 256
  }

  /** The bytes of a string literal: the low byte of each character, which
      is the character itself on Latin-1 text. */
  function Ascii(s: string): (r: seq<byte>)
    ensures |r| == |s|
  {
    seq(|s|, i requires 0 <= i < |s| => (s[i] as int % 256) as bv8)
  }

  const CR: byte := 13
  const LF: byte := 10
  const CRLF: seq<byte> := [CR, LF]

  const StatusLine: string := "HTTP/1.1 101 Switching Protocols"
  const UpgradeLine: string := "Upgrade: websocket"
  const ConnectionLine: string := "Connection: Upgrade"
  const AcceptName: string := "Sec-WebSocket-Accept: "

  /** The literal Upgrade appends before the accept key. */
  const ResponsePrefix: string :=
    StatusLine + "\r\n" + UpgradeLine + "\r\n" + ConnectionLine + "\r\n" + AcceptName

  /** Upgrade in evio_server.go: reject unless the method is GET,
      Connection contains the token "Upgrade", Upgrade contains "Websocket",
      Sec-Websocket-Version contains "13" and Sec-Websocket-Key is not empty;
      then answer with the 101 status line, the Upgrade and Connection
      headers and Sec-WebSocket-Accept computed from the key. */
  function Upgrade(r: Request, tokenContains: (seq<byte>, seq<byte>) -> bool,
                   acceptKey: seq<byte> -> seq<byte>): (res: UpgradeResult)
    ensures !r.isGet ==> res == BadHandshake
    ensures !tokenContains(Peek(r, "Connection"), Ascii("Upgrade")) ==> res == BadHandshake
    ensures !tokenContains(Peek(r, "Upgrade"), Ascii("Websocket")) ==> res == BadHandshake
    ensures !tokenContains(Peek(r, "Sec-Websocket-Version"), Ascii("13")) ==> res == BadHandshake
    ensures "Sec-Websocket-Key" !in r.headers ==> res == BadHandshake
    ensures res.Upgraded? <==>
      r.isGet && tokenContains(Peek(r, "Connection"), Ascii("Upgrade")) &&
      tokenContains(Peek(r, "Upgrade"), Ascii("Websocket")) &&
      tokenContains(Peek(r, "Sec-Websocket-Version"), Ascii("13")) &&
      |Peek(r, "Sec-Websocket-Key")| > 0
    ensures res.Upgraded? ==>
      res.response == Ascii(ResponsePrefix) + acceptKey(Peek(r, "Sec-Websocket-Key")) + CRLF + CRLF
  {
    if !r.isGet then BadHandshake
    else if !tokenContains(Peek(r, "Connection"), Ascii("Upgrade")) then BadHandshake
    else if !tokenContains(Peek(r, "Upgrade"), Ascii("Websocket")) then BadHandshake
    else if !tokenContains(Peek(r, "Sec-Websocket-Version"), Ascii("13")) then BadHandshake
    else
      var challengeKey := Peek(r, "Sec-Websocket-Key");
      if |challengeKey| == 0 then BadHandshake
      else
        Upgraded(Ascii(ResponsePrefix) + acceptKey(challengeKey) + CRLF + CRLF)
  }

  // An HTTP message head read back line by line: the partner of the
  // response Upgrade builds.

  /** The first CRLF at or after `from`, or |s| when there is none. */
  function FindCRLF(s: seq<byte>, from: nat): (i: nat)
    requires from <= |s|
    ensures from <= i <= |s|
    ensures i < |s| ==> i + 1 < |s| && s[i] == CR && s[i + 1] == LF
    ensures forall j | from <= j < i :: !(j + 1 < |s| && s[j] == CR && s[j + 1] == LF)
    decreases |s| - from
  {
    if from + 1 >= |s| then |s|
    else if s[from] == CR && s[from + 1] == LF then from
    else FindCRLF(s, from + 1)
  }

  /** A message head: its lines up to the empty line, and what follows. */
  datatype Head = Head(lines: seq<seq<byte>>, body: seq<byte>)

  /** Read CRLF-terminated lines until an empty one; None when the bytes end
      first. */
  function ParseHead(s: seq<byte>): Option<Head>
    decreases |s|
  {
    var i := FindCRLF(s, 0);
    if i == |s| then None
    else if i == 0 then Some(Head([], s[2..]))
    else
      match ParseHead(s[i + 2..])
      case None => None
      case Some(h) => Some(Head([s[..i]] + h.lines, h.body))
  }

  lemma {:induction false} FindCRLFPast(a: seq<byte>, b: seq<byte>, from: nat)
    requires from <= |a| && CR !in a
    ensures FindCRLF(a + CRLF + b, from) == |a|
    decreases |a| - from
  {
    var s := a + CRLF + b;
    if from < |a| {
      assert s[from] == a[from];
      FindCRLFPast(a, b, from + 1);
    } else {
      assert s[from] == CR && s[from + 1] == LF;
    }
  }

  /** A line without CR read off the front of a head. */
  lemma ParseHeadLine(a: seq<byte>, b: seq<byte>, lines: seq<seq<byte>>, body: seq<byte>)
    requires CR !in a && a != []
    requires ParseHead(b) == Some(Head(lines, body))
    ensures ParseHead(a + CRLF + b) == Some(Head([a] + lines, body))
  {
    var s := a + CRLF + b;
    FindCRLFPast(a, b, 0);
    assert s[..|a|] == a;
    assert s[|a| + 2..] == b;
  }

  lemma ParseHeadEnd(b: seq<byte>)
    ensures ParseHead(CRLF + b) == Some(Head([], b))
  {
    assert FindCRLF(CRLF + b, 0) == 0;
    assert (CRLF + b)[2..] == b;
  }

  lemma AsciiAppend(a: string, b: string)
    ensures Ascii(a + b) == Ascii(a) + Ascii(b)
  {
  }

  lemma AsciiCR(s: string)
    requires Latin1(s) && '\r' !in s
    ensures CR !in Ascii(s)
  {
    var r := Ascii(s);
    forall i | 0 <= i < |r| ensures r[i] != CR {
      ByteOfChar(s[i]);
    }
  }

  lemma ByteOfChar(c: char)
    requires c as int < 256 && c != '\r'
    ensures (c as int % 256) as bv8 != CR
  {
    assert c as int % 256 == c as int;
  }

  lemma StatusLineChars()
    ensures Latin1(StatusLine) && '\r' !in StatusLine
  {
  }

  lemma UpgradeLineChars()
    ensures Latin1(UpgradeLine) && '\r' !in UpgradeLine
  {
  }

  lemma ConnectionLineChars()
    ensures Latin1(ConnectionLine) && '\r' !in ConnectionLine
  {
  }

  lemma AcceptNameChars()
    ensures Latin1(AcceptName) && '\r' !in AcceptName
  {
  }

  /** The response literal is the status line and the two fixed header
      lines, each ended by CRLF, followed by the Sec-WebSocket-Accept name. */
  lemma ResponsePrefixLines()
    ensures Ascii(ResponsePrefix) ==
      Ascii(StatusLine) + CRLF + Ascii(UpgradeLine) + CRLF + Ascii(ConnectionLine) + CRLF + Ascii(AcceptName)
  {
    assert Ascii("\r\n") == CRLF;
    AsciiAppend(StatusLine, "\r\n");
    AsciiAppend(StatusLine + "\r\n", UpgradeLine);
    AsciiAppend(StatusLine + "\r\n" + UpgradeLine, "\r\n");
    AsciiAppend(StatusLine + "\r\n" + UpgradeLine + "\r\n", ConnectionLine);
    AsciiAppend(StatusLine + "\r\n" + UpgradeLine + "\r\n" + ConnectionLine, "\r\n");
    AsciiAppend(StatusLine + "\r\n" + UpgradeLine + "\r\n" + ConnectionLine + "\r\n", AcceptName);
  }

  /** A successful Upgrade answers with a complete message head and no
      body: the 101 status line, "Upgrade: websocket", "Connection:
      Upgrade" and the Sec-WebSocket-Accept line carrying acceptKey of the
      client's key, in that order (given an accept key without CR, as a
      base64 string is). */
  lemma UpgradeResponseHead(r: Request, tokenContains: (seq<byte>, seq<byte>) -> bool,
                            acceptKey: seq<byte> -> seq<byte>)
    requires Upgrade(r, tokenContains, acceptKey).Upgraded?
    requires CR !in acceptKey(Peek(r, "Sec-Websocket-Key"))
    ensures ParseHead(Upgrade(r, tokenContains, acceptKey).response) ==
      Some(Head([Ascii(StatusLine), Ascii(UpgradeLine), Ascii(ConnectionLine),
                 Ascii(AcceptName) + acceptKey(Peek(r, "Sec-Websocket-Key"))], []))
  {
    var key := acceptKey(Peek(r, "Sec-Websocket-Key"));
    var l1, l2, l3, l4 := Ascii(StatusLine), Ascii(UpgradeLine), Ascii(ConnectionLine), Ascii(AcceptName) + key;
    ResponsePrefixLines();
    StatusLineChars();
    UpgradeLineChars();
    ConnectionLineChars();
    AcceptNameChars();
    AsciiCR(StatusLine);
    AsciiCR(UpgradeLine);
    AsciiCR(ConnectionLine);
    AsciiCR(AcceptName);
    FourLines(l1, l2, l3, Ascii(AcceptName), key);
  }

  /** Four lines without CR, each ended by CRLF, then the empty line. */
  lemma FourLines(l1: seq<byte>, l2: seq<byte>, l3: seq<byte>, name: seq<byte>, value: seq<byte>)
    requires l1 != [] && l2 != [] && l3 != [] && name != []
    requires CR !in l1 && CR !in l2 && CR !in l3 && CR !in name && CR !in value
    ensures ParseHead((l1 + CRLF + l2 + CRLF + l3 + CRLF + name) + value + CRLF + CRLF) ==
      Some(Head([l1, l2, l3, name + value], []))
  {
    var l4 := name + value;
    assert CR !in l4;
    var r0 := CRLF + [];
    var r1 := l4 + CRLF + r0;
    var r2 := l3 + CRLF + r1;
    var r3 := l2 + CRLF + r2;
    var r4 := l1 + CRLF + r3;
    ParseHeadEnd([]);
    ParseHeadLine(l4, r0, [], []);
    ParseHeadLine(l3, r1, [l4] + [], []);
    ParseHeadLine(l2, r2, [l3] + ([l4] + []), []);
    ParseHeadLine(l1, r3, [l2] + ([l3] + ([l4] + [])), []);
    FourList(l1, l2, l3, l4);
    Regroup(l1, l2, l3, name, value);
  }

  lemma FourList<T>(a: T, b: T, c: T, d: T)
    ensures [a] + ([b] + ([c] + ([d] + []))) == [a, b, c, d]
  {
  }

  lemma Regroup(l1: seq<byte>, l2: seq<byte>, l3: seq<byte>, name: seq<byte>, value: seq<byte>)
    ensures (l1 + CRLF + l2 + CRLF + l3 + CRLF + name) + value + CRLF + CRLF ==
      l1 + CRLF + (l2 + CRLF + (l3 + CRLF + ((name + value) + CRLF + (CRLF + []))))
  {
  }
}
