/**
 DLE framing: the EverMore packets of driver_evermore.c and the TSIP packets of
 driver_tsip.c.  A DLE byte inside a packet is sent twice; DLE ETX ends a packet.
 */
module Stuffing {
  import opened Bitwise

  const STX: byte := 0x02
  const ETX: byte := 0x03
  const DLE: byte := 0x10
  const MSGBUF: nat := 2 * 516 + 1     // MAX_PACKET_LENGTH * 2 + 1

  function StuffByte(b: byte): seq<byte>
  {
    if b == DLE then [DLE, DLE] else [b]
  }

  // A byte string with every DLE doubled.
  function Stuff(s: seq<byte>): (r: seq<byte>)
    ensures |s| <= |r| <= 2 * |s|
  {
    if s == [] then [] else StuffByte(s[0]) + Stuff(s[1..])
  }

  lemma Assoc(a: seq<byte>, b: seq<byte>, c: seq<byte>)
    ensures a + b + c == a + (b + c)
  {
  }

  lemma StuffCons(b: byte, s: seq<byte>)
    ensures Stuff([b] + s) == StuffByte(b) + Stuff(s)
  {
    hide StuffByte;
    assert ([b] + s)[1..] == s;
  }

  lemma {:induction false} StuffAppend(s: seq<byte>, t: seq<byte>)
    ensures Stuff(s + t) == Stuff(s) + Stuff(t)
  {
    hide StuffByte;
    if s == [] {
      assert s + t == t;
    } else {
      hide Stuff;
      var b, rest := s[0], s[1..];
      assert s == [b] + rest;
      Assoc([b], rest, t);
      StuffCons(b, rest + t);
      StuffCons(b, rest);
      StuffAppend(rest, t);
      Assoc(StuffByte(b), Stuff(rest), Stuff(t));
    }
  }

  lemma StuffSnoc(s: seq<byte>, b: byte)
    ensures Stuff(s + [b]) == Stuff(s) + StuffByte(b)
  {
    StuffAppend(s, [b]);
    StuffCons(b, []);
    assert [b] + [] == [b];
  }

  //////////////////////////////////////////////////////////////////////////////
  // Framing is unambiguous
  //////////////////////////////////////////////////////////////////////////////

  // Reading bytes and doubled DLEs from position i on, where the first DLE ETX stands, or
  // -1 if a DLE turns up that is neither doubled nor followed by ETX, or none turns up.
  ghost function FrameEnd(s: seq<byte>, i: nat): int
    requires i <= |s|
    decreases |s| - i
  {
    if i + 1 >= |s| then -1
    else if s[i] != DLE then FrameEnd(s, i + 1)
    else if s[i + 1] == DLE then FrameEnd(s, i + 2)
    else if s[i + 1] == ETX then i
    else -1
  }

  // The end of a stuffed string is found where it is, whatever comes before and after.
  lemma {:induction false} FrameEndFound(pre: seq<byte>, s: seq<byte>, rest: seq<byte>)
    ensures FrameEnd(pre + Stuff(s) + [DLE, ETX] + rest, |pre|) == |pre| + |Stuff(s)|
    decreases |s|
  {
    var t := pre + Stuff(s) + [DLE, ETX] + rest;
    if s != [] {
      var next := pre + StuffByte(s[0]);
      FrameEndFound(next, s[1..], rest);
      assert next + Stuff(s[1..]) + [DLE, ETX] + rest == t;
      assert t[|pre|] == s[0] && (s[0] == DLE ==> t[|pre| + 1] == DLE);
    } else {
      assert t[|pre|] == DLE && t[|pre| + 1] == ETX;
    }
  }

  lemma {:induction false} StuffInjective(s: seq<byte>, t: seq<byte>)
    requires Stuff(s) == Stuff(t)
    ensures s == t
  {
    if s != [] && t != [] {
      assert Stuff(s)[0] == s[0] && Stuff(t)[0] == t[0];
      assert Stuff(s)[|StuffByte(s[0])|..] == Stuff(s[1..]) && Stuff(t)[|StuffByte(t[0])|..] == Stuff(t[1..]);
      StuffInjective(s[1..], t[1..]);
      assert s == [s[0]] + s[1..] && t == [t[0]] + t[1..];
    }
  }

  // Two frames of which one is the beginning of the other carry the same bytes.
  lemma FramesPrefixFree(lead: seq<byte>, s: seq<byte>, t: seq<byte>, more: seq<byte>)
    requires lead + Stuff(s) + [DLE, ETX] + more == lead + Stuff(t) + [DLE, ETX]
    ensures s == t && more == []
  {
    FrameEndFound(lead, s, more);
    FrameEndFound(lead, t, []);
    var u := lead + Stuff(t) + [DLE, ETX];
    assert u + [] == u;
    assert u[|lead|..|lead| + |Stuff(s)|] == Stuff(s) && u[|lead|..|lead| + |Stuff(t)|] == Stuff(t);
    StuffInjective(s, t);
  }

  //////////////////////////////////////////////////////////////////////////////
  // EverMore
  //////////////////////////////////////////////////////////////////////////////

  function Sum(s: seq<byte>): nat
  {
    if s == [] then 0 else Sum(s[..|s| - 1]) + s[|s| - 1]
  }

  function Checksum(s: seq<byte>): byte
  {
    Sum(s) % 256
  }

  // The packet for a payload: its length and checksum are stuffed like the rest.
  function EvermorePacket(p: seq<byte>): seq<byte>
    requires |p| <= 253
  {
    [DLE, STX] + Stuff([|p| + 2] + p + [Checksum(p)]) + [DLE, ETX]
  }

  // Writes a byte, and a DLE behind it if it is one.
  method PutStuffed(msgbuf: array<byte>, cp: nat, b: byte) returns (end: nat)
    requires cp + 2 <= msgbuf.Length
    modifies msgbuf
    ensures end == cp + |StuffByte(b)|
    ensures msgbuf[..end] == old(msgbuf[..cp]) + StuffByte(b)
  {
    msgbuf[cp] := b;
    end := cp + 1;
    if b == DLE {
      msgbuf[end] := DLE;
      end := end + 1;
    }
  }

  // What has been written when i payload bytes are through.
  ghost function Written(p: seq<byte>, i: nat): seq<byte>
    requires i <= |p| <= 253
  {
    var len: byte := |p| + 2;
    [DLE, STX] + Stuff([len] + p[..i])
  }

  lemma WrittenFirst(p: seq<byte>)
    requires |p| <= 253
    ensures Written(p, 0) == [DLE, STX] + StuffByte(|p| + 2)
  {
    hide StuffByte;
    var len: byte := |p| + 2;
    StuffCons(len, p[..0]);
    assert StuffByte(len) + Stuff(p[..0]) == StuffByte(len);
  }

  lemma WrittenNext(p: seq<byte>, i: nat)
    requires i < |p| <= 253
    ensures Written(p, i + 1) == Written(p, i) + StuffByte(p[i]) && Sum(p[..i + 1]) == Sum(p[..i]) + p[i]
  {
    hide Stuff, StuffByte;
    var len: byte := |p| + 2;
    assert p[..i + 1][..i] == p[..i];
    Assoc([len], p[..i], [p[i]]);
    assert p[..i + 1] == p[..i] + [p[i]];
    StuffSnoc([len] + p[..i], p[i]);
    Assoc([DLE, STX], Stuff([len] + p[..i]), StuffByte(p[i]));
  }

  lemma WrittenLast(p: seq<byte>)
    requires |p| <= 253
    ensures Written(p, |p|) + StuffByte(Checksum(p)) + [DLE, ETX] == EvermorePacket(p)
  {
    hide Stuff, StuffByte, Checksum;
    var len: byte := |p| + 2;
    assert p[..|p|] == p;
    StuffSnoc([len] + p, Checksum(p));
    Assoc([DLE, STX], Stuff([len] + p), StuffByte(Checksum(p)));
  }

  // evermore_control_send.  Every payload of at most 253 bytes fits the message buffer.
  method EvermoreSend(msgbuf: array<byte>, buf: seq<byte>) returns (msgbuflen: nat)
    requires |buf| <= 253 && msgbuf.Length == MSGBUF
    modifies msgbuf
    ensures msgbuflen <= MSGBUF && msgbuf[..msgbuflen] == EvermorePacket(buf)
  {
    hide Stuff, EvermorePacket, Written;
    msgbuf[0], msgbuf[1] := DLE, STX;
    assert msgbuf[..2] == [DLE, STX];
    var len: byte := |buf| + 2;
    var cp := PutStuffed(msgbuf, 2, len);
    WrittenFirst(buf);
    var crc: nat := 0;
    for i := 0 to |buf|
      invariant crc == Sum(buf[..i]) && cp <= 4 + 2 * i
      invariant msgbuf[..cp] == Written(buf, i)
    {
      WrittenNext(buf, i);
      cp := PutStuffed(msgbuf, cp, buf[i]);
      crc := crc + buf[i];
    }
    assert buf[..|buf|] == buf;
    WrittenLast(buf);
    cp := PutStuffed(msgbuf, cp, crc % 256);
    msgbuf[cp], msgbuf[cp + 1] := DLE, ETX;
    msgbuflen := cp + 2;
    assert msgbuf[..msgbuflen] == msgbuf[..cp] + [DLE, ETX];
  }

  // What is still to be read when i payload bytes are through.
  ghost function Unread(p: seq<byte>, i: nat): seq<byte>
    requires i <= |p|
  {
    Stuff(p[i..] + [Checksum(p)]) + [DLE, ETX]
  }

  lemma UnreadFirst(p: seq<byte>)
    requires |p| <= 253
    ensures EvermorePacket(p) == [DLE, STX] + StuffByte(|p| + 2) + Unread(p, 0)
  {
    hide Stuff, StuffByte, Checksum;
    var len: byte := |p| + 2;
    assert p[0..] == p;
    var body := p + [Checksum(p)];
    Assoc([len], p, [Checksum(p)]);
    StuffCons(len, body);
    Assoc([DLE, STX], StuffByte(len), Stuff(body));
    Assoc([DLE, STX] + StuffByte(len), Stuff(body), [DLE, ETX]);
  }

  lemma UnreadNext(p: seq<byte>, i: nat)
    requires i < |p|
    ensures Unread(p, i) == StuffByte(p[i]) + Unread(p, i + 1)
  {
    hide Stuff, StuffByte, Checksum;
    var body := p[i + 1..] + [Checksum(p)];
    assert p[i..] == [p[i]] + p[i + 1..];
    Assoc([p[i]], p[i + 1..], [Checksum(p)]);
    StuffCons(p[i], body);
    Assoc(StuffByte(p[i]), Stuff(body), [DLE, ETX]);
  }

  lemma ReadStuffed(buf: seq<byte>, cp: nat, b: byte, rest: seq<byte>)
    requires cp <= |buf| && buf[cp..] == StuffByte(b) + rest
    ensures cp + |StuffByte(b)| <= |buf| && buf[cp] == b
    ensures buf[cp + |StuffByte(b)|..] == rest
  {
    assert buf[cp] == buf[cp..][0];
    assert buf[cp + |StuffByte(b)|..] == buf[cp..][|StuffByte(b)|..];
  }

  // A packet carries one payload only.
  lemma PacketInjective(p: seq<byte>, q: seq<byte>)
    requires |p| <= 253 && |q| <= 253 && EvermorePacket(p) == EvermorePacket(q)
    ensures p == q
  {
    hide Stuff, StuffByte, Checksum;
    var m: byte, n: byte := |p| + 2, |q| + 2;
    var s, t := [m] + p + [Checksum(p)], [n] + q + [Checksum(q)];
    assert EvermorePacket(p) + [] == EvermorePacket(p);
    FramesPrefixFree([DLE, STX], s, t, []);
    assert s[1..|s| - 1] == p && t[1..|t| - 1] == q;
  }

  lemma PacketHead(p: seq<byte>)
    requires |p| <= 253
    ensures var cp := 2 + |StuffByte(|p| + 2)|;
      && cp <= |EvermorePacket(p)| && EvermorePacket(p)[2] == |p| + 2 && EvermorePacket(p)[cp..] == Unread(p, 0)
  {
    hide EvermorePacket, Unread;
    UnreadFirst(p);
    ReadStuffed(EvermorePacket(p), 2, |p| + 2, Unread(p, 0));
  }

  // Where the payload of a packet begins, and its size, out of the length byte before it.
  function PayloadStart(buf: seq<byte>): nat
    requires |buf| == MSGBUF
  {
    if buf[2] == DLE then 4 else 3
  }

  function PayloadSize(buf: seq<byte>): int
    requires |buf| == MSGBUF
  {
    var length: int := buf[PayloadStart(buf) - 1];
    length - 2
  }

  // The n bytes read from position cp on when a byte behind each DLE is passed over.
  function Skim(buf: seq<byte>, cp: nat, n: nat): (r: seq<byte>)
    requires cp + 2 * n <= |buf|
    ensures |r| == n
    decreases n
  {
    if n == 0 then [] else [buf[cp]] + Skim(buf, cp + (if buf[cp] == DLE then 2 else 1), n - 1)
  }

  lemma SkimNext(done: seq<byte>, buf: seq<byte>, cp: nat, n: nat)
    requires n > 0 && cp + 2 * n <= |buf|
    ensures done + Skim(buf, cp, n) == done + [buf[cp]] + Skim(buf, cp + (if buf[cp] == DLE then 2 else 1), n - 1)
  {
  }

  // The unstuffing loop.
  method EvermoreUnstuff(buf: seq<byte>, start: nat, datalen: nat, buf2: array<byte>)
    requires start + 2 * datalen <= |buf| && datalen <= buf2.Length
    modifies buf2
    ensures buf2[..datalen] == Skim(buf, start, datalen)
  {
    hide Skim;
    var cp := start;
    ghost var all := Skim(buf, start, datalen);
    for i := 0 to datalen
      invariant 0 <= cp <= start + 2 * i
      invariant all == buf2[..i] + Skim(buf, cp, datalen - i)
    {
      ghost var done := buf2[..i];
      SkimNext(done, buf, cp, datalen - i);
      buf2[i] := buf[cp];
      assert buf2[..i + 1] == done + [buf2[i]];
      cp := cp + 1;
      if buf2[i] == DLE {
        cp := cp + 1;
      }
    }
  }

  datatype Unpacked = TooShort | Data(data: seq<byte>)

  // The head of evermore_parse, for any contents of the packet lexer's output buffer.  With
  // a length byte below 2 the size wraps around to nearly 2^64, and the loop runs off the
  // end of both buffers.
  method EvermoreParse(buf: seq<byte>, len: nat) returns (r: Unpacked)
    requires |buf| == MSGBUF && (len >= 5 ==> PayloadSize(buf) >= 0)
    ensures r == if len < 5 then TooShort else Data(Skim(buf, PayloadStart(buf), PayloadSize(buf)))
  {
    if len < 5 {
      return TooShort;
    }
    var cp := 2;
    if buf[cp] == DLE {
      cp := cp + 1;
    }
    var datalen: int := buf[cp];
    cp := cp + 1;
    datalen := datalen - 2;
    var buf2 := new byte[516];
    EvermoreUnstuff(buf, cp, datalen, buf2);
    r := Data(buf2[..datalen]);
  }

  lemma {:induction false} SkimUnread(buf: seq<byte>, cp: nat, p: seq<byte>, i: nat, rest: seq<byte>)
    requires i <= |p| && cp + 2 * (|p| - i) <= |buf| && buf[cp..] == Unread(p, i) + rest
    ensures Skim(buf, cp, |p| - i) == p[i..]
    decreases |p| - i
  {
    hide Unread;
    if i < |p| {
      UnreadNext(p, i);
      Assoc(StuffByte(p[i]), Unread(p, i + 1), rest);
      ReadStuffed(buf, cp, p[i], Unread(p, i + 1) + rest);
      SkimUnread(buf, cp + |StuffByte(p[i])|, p, i + 1, rest);
      assert p[i..] == [p[i]] + p[i + 1..];
    }
  }

  // What evermore_control_send builds, evermore_parse takes apart, whatever lies behind it.
  lemma EvermoreRoundTrip(p: seq<byte>, rest: seq<byte>)
    requires |p| <= 253 && |EvermorePacket(p) + rest| == MSGBUF
    ensures var buf := EvermorePacket(p) + rest;
      && |EvermorePacket(p)| >= 5 && PayloadSize(buf) == |p|
      && Skim(buf, PayloadStart(buf), |p|) == p
  {
    PacketHead(p);
    var buf, cp := EvermorePacket(p) + rest, 2 + |StuffByte(|p| + 2)|;
    PacketLength(p);
    hide EvermorePacket, Unread;
    assert buf[cp..] == EvermorePacket(p)[cp..] + rest;
    SkimUnread(buf, cp, p, 0, rest);
    assert p[0..] == p;
  }

  lemma PacketLength(p: seq<byte>)
    requires |p| <= 253
    ensures |EvermorePacket(p)| >= 6
    ensures |p| + 2 == DLE ==> EvermorePacket(p)[3] == DLE
  {
    hide Stuff;
    UnreadFirst(p);
  }

  // An EverMore packet shows its own end: no DLE before the trailer is undoubled.
  lemma EvermoreFramed(p: seq<byte>, rest: seq<byte>)
    requires |p| <= 253
    ensures FrameEnd(EvermorePacket(p) + rest, 2) == |EvermorePacket(p)| - 2
  {
    hide Stuff, StuffByte, Checksum, FrameEnd;
    var len: byte := |p| + 2;
    FrameEndFound([DLE, STX], [len] + p + [Checksum(p)], rest);
  }

  //////////////////////////////////////////////////////////////////////////////
  // What the receiver of an EverMore packet checks
  //////////////////////////////////////////////////////////////////////////////

  // What is left of a checksum byte when the payload is taken off it again.
  function Rest(c: int, p: seq<byte>): int
    decreases |p|
  {
    if p == [] then c else Rest((c - p[0]) % 256, p[1..])
  }

  lemma {:induction false} SumFirst(p: seq<byte>)
    requires p != []
    ensures Sum(p) == p[0] + Sum(p[1..])
  {
    if |p| > 1 {
      SumFirst(p[..|p| - 1]);
      assert p[1..][..|p| - 2] == p[..|p| - 1][1..];
    }
  }

  lemma {:induction false} RestOfSum(p: seq<byte>, c: int)
    requires 0 <= c < 256 && (c - Sum(p)) % 256 == 0
    ensures Rest(c, p) == 0
  {
    if p != [] {
      SumFirst(p);
      RestOfSum(p[1..], (c - p[0]) % 256);
    }
  }

  // A packet is 10 02, then its payload between its length and the checksum byte, with
  // every 10 doubled, then 10 03; taking the payload off the checksum leaves nothing.
  lemma PacketBytes(p: seq<byte>) returns (c: byte)
    requires |p| <= 253
    ensures Rest(c, p) == 0 && EvermorePacket(p) == [0x10, 0x02] + Stuff([|p| + 2] + p + [c]) + [0x10, 0x03]
  {
    c := Checksum(p);
    RestOfSum(p, c);
    hide Stuff, Checksum, Rest, Sum;
  }

  // Another value for one byte of the payload is another checksum.
  lemma OneByteDetected(p: seq<byte>, i: nat, b: byte)
    requires i < |p| && b != p[i]
    ensures Checksum(p[i := b]) != Checksum(p)
  {
    SumChanged(p, i, b);
    var m: int, n: int, x: int, y: int := Sum(p), Sum(p[i := b]), p[i], b;
    assert n == m + (y - x);
  }

  lemma {:induction false} SumChanged(p: seq<byte>, i: nat, b: byte)
    requires i < |p|
    ensures Sum(p[i := b]) - b == Sum(p) - p[i]
  {
    var n := |p| - 1;
    if i == n {
      assert p[i := b][..n] == p[..n];
    } else {
      SumChanged(p[..n], i, b);
      assert p[i := b][..n] == p[..n][i := b];
    }
  }

  // Doubling: the byte 10 becomes two of it, any other byte stays alone.
  lemma StuffedBytes(b: byte, s: seq<byte>)
    ensures Stuff([]) == [] && Stuff([b] + s) == (if b == 0x10 then [0x10, 0x10] else [b]) + Stuff(s)
  {
    StuffCons(b, s);
  }

  // The buffer begins with the packet for p.
  ghost predicate Carries(buf: seq<byte>, p: seq<byte>)
  {
    |p| <= 253 && EvermorePacket(p) <= buf
  }

  // What is still to come of the packet for p when i of its payload bytes are through.
  ghost predicate Coming(buf: seq<byte>, n: nat, i: nat, p: seq<byte>)
  {
    i <= |p| && n <= |buf| && Unread(p, i) <= buf[n..]
  }

  // Whatever packet the buffer begins with, its payload has `len` bytes, of which `done`
  // are through at position n.
  ghost predicate OnlyAfter(buf: seq<byte>, len: nat, n: nat, done: seq<byte>)
  {
    forall p :: Carries(buf, p) ==> |p| == len && |done| <= len && p[..|done|] == done && Coming(buf, n, |done|, p)
  }

  lemma PrefixParts(buf: seq<byte>, n: nat, a: seq<byte>, b: seq<byte>)
    requires n <= |buf| && a + b <= buf[n..]
    ensures n + |a| <= |buf| && buf[n..n + |a|] == a && b <= buf[n + |a|..]
  {
    assert buf[n..][..|a|] == (a + b)[..|a|];
    assert buf[n..][|a|..][..|b|] == (a + b)[|a|..];
  }

  lemma ReadComing(buf: seq<byte>, n: nat, i: nat, p: seq<byte>)
    requires Coming(buf, n, i, p) && i < |p|
    ensures n < |buf| && buf[n] == p[i] && (p[i] == DLE ==> n + 1 < |buf| && buf[n + 1] == DLE)
    ensures Coming(buf, n + (if p[i] == DLE then 2 else 1), i + 1, p)
  {
    UnreadNext(p, i);
    hide Unread;
    PrefixParts(buf, n, StuffByte(p[i]), Unread(p, i + 1));
    var a := buf[n..n + |StuffByte(p[i])|];
    assert a[0] == buf[n] && (|a| > 1 ==> a[1] == buf[n + 1]);
  }

  // One payload byte.
  lemma ReadOn(buf: seq<byte>, len: nat, n: nat, done: seq<byte>)
    requires OnlyAfter(buf, len, n, done) && |done| < len && n + 1 < |buf|
    ensures buf[n] == DLE && buf[n + 1] != DLE ==> forall p :: !Carries(buf, p)
    ensures buf[n] != DLE || buf[n + 1] == DLE ==>
              OnlyAfter(buf, len, n + (if buf[n] == DLE then 2 else 1), done + [buf[n]])
  {
    hide Carries, Coming;
    forall p | Carries(buf, p)
      ensures buf[n] != DLE || buf[n + 1] == DLE
      ensures p[..|done| + 1] == done + [buf[n]] && Coming(buf, n + (if buf[n] == DLE then 2 else 1), |done| + 1, p)
    {
      ReadComing(buf, n, |done|, p);
      assert p[..|done| + 1] == p[..|done|] + [p[|done|]];
    }
  }

  // The end of a packet.
  lemma ReadLast(buf: seq<byte>, n: nat, p: seq<byte>)
    requires Coming(buf, n, |p|, p)
    ensures var m := n + (if Checksum(p) == DLE then 2 else 1);
      && m + 1 < |buf| && buf[n] == Checksum(p) && (Checksum(p) == DLE ==> buf[n + 1] == DLE)
      && buf[m] == DLE && buf[m + 1] == ETX
  {
    var c := Checksum(p);
    UnreadLast(p);
    hide Checksum, Unread;
    PrefixParts(buf, n, StuffByte(c), [DLE, ETX]);
    var a, m := StuffByte(c), n + |StuffByte(c)|;
    assert a[0] == buf[n..m][0] && (|a| > 1 ==> a[1] == buf[n..m][1]);
    assert buf[m..][..2] == [DLE, ETX] && buf[m] == buf[m..][..2][0] && buf[m + 1] == buf[m..][..2][1];
  }

  lemma UnreadLast(p: seq<byte>)
    ensures Unread(p, |p|) == StuffByte(Checksum(p)) + [DLE, ETX]
  {
    var c := Checksum(p);
    hide Checksum, Stuff;
    assert p[|p|..] + [c] == [c] && [c] + [] == [c];
    StuffedBytes(c, []);
  }

  // The start of one.
  lemma ReadHead(buf: seq<byte>, p: seq<byte>)
    requires Carries(buf, p) && |buf| == MSGBUF
    ensures buf[0] == DLE && buf[1] == STX && buf[2] == |p| + 2 && (buf[2] == DLE ==> buf[3] == DLE)
    ensures Coming(buf, if buf[2] == DLE then 4 else 3, 0, p)
  {
    var packet := EvermorePacket(p);
    UnreadFirst(p);
    PacketHead(p);
    hide EvermorePacket, Unread;
    forall k | 0 <= k < |packet| ensures buf[k] == packet[k] {
    }
    var cp := 2 + |StuffByte(|p| + 2)|;
    assert buf[cp..][..|packet| - cp] == packet[cp..];
  }

  // The buffer begins with what has been checked so far.
  lemma PacketChecked(buf: seq<byte>, n: nat, done: seq<byte>)
    requires |done| <= 253 && n + |StuffByte(Checksum(done))| + 2 <= |buf|
    requires buf[..n] == Written(done, |done|)
    requires var c := Checksum(done);
      buf[n..n + |StuffByte(c)| + 2] == StuffByte(c) + [DLE, ETX]
    ensures Carries(buf, done)
  {
    WrittenLast(done);
    hide Written, EvermorePacket, Checksum, StuffByte;
    var c := Checksum(done);
    var m := n + |StuffByte(c)| + 2;
    Assoc(Written(done, |done|), StuffByte(c), [DLE, ETX]);
    assert buf[..m] == buf[..n] + buf[n..m];
  }

  // The head of a packet of `len` payload bytes, and the first of them.
  ghost function Front(len: byte, done: seq<byte>): seq<byte>
  {
    [DLE, STX] + Stuff([len] + done)
  }

  lemma FrontNext(len: byte, done: seq<byte>, b: byte)
    ensures Front(len, done + [b]) == Front(len, done) + StuffByte(b)
    ensures Front(len, []) == [DLE, STX] + StuffByte(len)
  {
    hide Stuff, StuffByte;
    Assoc([len], done, [b]);
    StuffSnoc([len] + done, b);
    Assoc([DLE, STX], Stuff([len] + done), StuffByte(b));
    StuffCons(len, []);
    StuffedBytes(len, []);
    assert [len] + [] == [len] && StuffByte(len) + [] == StuffByte(len);
  }

  lemma SumNext(done: seq<byte>, b: byte)
    ensures Sum(done + [b]) == Sum(done) + b && Sum([]) == 0
  {
    assert (done + [b])[..|done|] == done;
  }

  lemma SliceNext(buf: seq<byte>, n: nat, b: byte)
    requires n < |buf| && buf[n] == b && (b == DLE ==> n + 1 < |buf| && buf[n + 1] == DLE)
    ensures buf[..n + (if b == DLE then 2 else 1)] == buf[..n] + StuffByte(b)
  {
  }

  lemma NothingRead(buf: seq<byte>, n: nat)
    requires |buf| == MSGBUF && buf[2] >= 2
    requires forall p :: Carries(buf, p) ==> buf[2] == |p| + 2 && Coming(buf, n, 0, p)
    ensures OnlyAfter(buf, buf[2] - 2, n, [])
    ensures Sum([]) == 0
  {
    hide Carries, Coming;
  }

  lemma FrontWritten(done: seq<byte>)
    requires |done| <= 253
    ensures Front(|done| + 2, done) == Written(done, |done|)
  {
    assert done[..|done|] == done;
  }

  // What the packet lexer does once its state machine has seen DLE ETX: it goes through the
  // packet again.  A length below 2 would wrap around.
  method EvermoreRecognized(inbuffer: seq<byte>) returns (ok: bool)
    requires |inbuffer| == MSGBUF && inbuffer[2] >= 2
    ensures ok <==> exists p :: Carries(inbuffer, p)
  {
    hide Carries, Coming, Written, Checksum, Front, OnlyAfter, Sum;
    forall p | Carries(inbuffer, p)
      ensures inbuffer[0] == DLE && inbuffer[1] == STX && inbuffer[2] == |p| + 2
      ensures inbuffer[2] == DLE ==> inbuffer[3] == DLE
      ensures Coming(inbuffer, if inbuffer[2] == DLE then 4 else 3, 0, p)
    {
      ReadHead(inbuffer, p);
    }
    if inbuffer[0] != DLE {
      return false;
    }
    if inbuffer[1] != STX {
      return false;
    }
    var n, len: nat := 3, inbuffer[2];
    if len == DLE {
      if inbuffer[n] != DLE {
        return false;
      }
      n := n + 1;
    }
    FrontNext(inbuffer[2], [], 0);
    NothingRead(inbuffer, n);
    assert inbuffer[..n] == Front(inbuffer[2], []);
    len := len - 2;
    var crc: nat, i := 0, 0;
    ghost var done: seq<byte> := [];
    while i < len
      invariant i == |done| <= len && 3 <= n <= 4 + 2 * i && crc == Sum(done)
      invariant OnlyAfter(inbuffer, len, n, done)
      invariant inbuffer[..n] == Front(inbuffer[2], done)
    {
      ghost var was, b := n, inbuffer[n];
      ReadOn(inbuffer, len, n, done);
      FrontNext(inbuffer[2], done, b);
      SumNext(done, b);
      crc := crc + inbuffer[n];
      done := done + [b];
      i := i + 1;
      n := n + 1;
      if inbuffer[n - 1] == DLE {
        if inbuffer[n] != DLE {
          return false;
        }
        n := n + 1;
      }
      SliceNext(inbuffer, was, b);
    }
    ok := Ending(inbuffer, n, crc, done);
  }

  // The checksum and the trailer.
  method Ending(inbuffer: seq<byte>, start: nat, sum: nat, ghost done: seq<byte>) returns (ok: bool)
    requires |inbuffer| == MSGBUF && start + 4 <= MSGBUF && |done| <= 253 && sum == Sum(done)
    requires OnlyAfter(inbuffer, |done|, start, done) && inbuffer[..start] == Front(|done| + 2, done)
    ensures ok <==> exists p :: Carries(inbuffer, p)
  {
    hide Carries, Coming, Written, Front;
    ghost var c := Checksum(done);
    ghost var m := start + (if c == DLE then 2 else 1);
    forall p | Carries(inbuffer, p)
      ensures inbuffer[start] == c && (c == DLE ==> inbuffer[start + 1] == DLE)
      ensures inbuffer[m] == DLE && inbuffer[m + 1] == ETX
    {
      assert p[..|done|] == p;
      ReadLast(inbuffer, start, p);
    }
    var n, checksum := start + 1, inbuffer[start];
    if checksum == DLE {
      if inbuffer[n] != DLE {
        return false;
      }
      n := n + 1;
    }
    if inbuffer[n] != DLE {
      return false;
    }
    n := n + 1;
    if inbuffer[n] != ETX {
      return false;
    }
    var crc := sum % 256;
    if crc != checksum {
      return false;
    }
    FrontWritten(done);
    assert inbuffer[start..n + 1] == StuffByte(c) + [DLE, ETX];
    PacketChecked(inbuffer, start, done);
    ok := true;
  }

  //////////////////////////////////////////////////////////////////////////////
  // TSIP
  //////////////////////////////////////////////////////////////////////////////

  const BUFSIZ: nat := 8192     // glibc's value

  function TsipPacket(id: byte, p: seq<byte>): seq<byte>
  {
    [DLE, id] + Stuff(p) + [DLE, ETX]
  }

  lemma TsipBytes(id: byte, p: seq<byte>)
    ensures TsipPacket(id, p) == [0x10, id] + Stuff(p) + [0x10, 0x03]
  {
  }

  lemma TsipNext(id: byte, p: seq<byte>, i: nat)
    requires i < |p|
    ensures [DLE, id] + Stuff(p[..i + 1]) == [DLE, id] + Stuff(p[..i]) + StuffByte(p[i])
  {
    hide Stuff, StuffByte;
    assert p[..i + 1] == p[..i] + [p[i]];
    StuffSnoc(p[..i], p[i]);
    Assoc([DLE, id], Stuff(p[..i]), StuffByte(p[i]));
  }

  lemma StuffPart(s: seq<byte>, i: nat)
    requires i < |s|
    ensures |Stuff(s[..i])| + |StuffByte(s[i])| <= |Stuff(s)|
  {
    hide Stuff, StuffByte;
    assert s == s[..i] + s[i..];
    StuffAppend(s[..i], s[i..]);
    assert s[i..] == [s[i]] + s[i + 1..];
    StuffCons(s[i], s[i + 1..]);
  }

  // tsip_write.  The caller answers for the message buffer holding the packet.
  method TsipWrite(msgbuf: array<byte>, id: byte, buf: seq<byte>) returns (msgbuflen: nat)
    requires |TsipPacket(id, buf)| <= msgbuf.Length == MSGBUF
    modifies msgbuf
    ensures msgbuflen <= MSGBUF && msgbuf[..msgbuflen] == TsipPacket(id, buf)
  {
    hide Stuff;
    msgbuf[0], msgbuf[1] := DLE, id;
    var ep: nat := 2;
    assert buf[..0] == [];
    StuffNone();
    assert msgbuf[..2] == [DLE, id] + [];
    for cp := 0 to |buf|
      invariant ep == 2 + |Stuff(buf[..cp])| <= MSGBUF
      invariant msgbuf[..ep] == [DLE, id] + Stuff(buf[..cp])
    {
      TsipNext(id, buf, cp);
      StuffPart(buf, cp);
      ghost var before := msgbuf[..ep];
      if buf[cp] == DLE {
        msgbuf[ep] := DLE;
        ep := ep + 1;
      }
      msgbuf[ep] := buf[cp];
      ep := ep + 1;
      assert msgbuf[..ep] == before + StuffByte(buf[cp]);
    }
    assert buf[..|buf|] == buf;
    msgbuf[ep], msgbuf[ep + 1] := DLE, ETX;
    msgbuflen := ep + 2;
    assert msgbuf[..msgbuflen] == msgbuf[..ep] + [DLE, ETX];
  }

  lemma StuffNone()
    ensures Stuff([]) == []
  {
  }

  // What the unstuffing loop takes from s[i..n]: a DLE gives way to the byte behind it,
  // unless that is ETX.
  function UnstuffFrom(s: seq<byte>, n: nat, i: nat): seq<byte>
    requires n < |s|
    decreases n - i
  {
    if i >= n then []
    else if s[i] != DLE then [s[i]] + UnstuffFrom(s, n, i + 1)
    else if s[i + 1] == ETX then []
    else [s[i + 1]] + UnstuffFrom(s, n, i + 2)
  }

  // The unstuffing in tsip_analyze.  A lone DLE at the end makes it look at the byte
  // behind the packet, so the buffer is longer than what is in it.
  method TsipUnstuff(outbuffer: array<byte>, outbuflen: nat) returns (r: Unpacked)
    requires outbuflen < outbuffer.Length <= BUFSIZ
    ensures r == TooShort <==> outbuflen < 4 || outbuffer[0] != DLE
    ensures r.Data? ==> r.data == UnstuffFrom(outbuffer[..], outbuflen, 2)
  {
    if outbuflen < 4 || outbuffer[0] != DLE {
      return TooShort;
    }
    var buf := new byte[BUFSIZ];
    var len := 0;
    var i := 2;
    ghost var out := outbuffer[..];
    while i < outbuflen
      invariant 0 <= len <= i && i <= outbuflen + 1
      invariant out == outbuffer[..]
      invariant buf[..len] + UnstuffFrom(out, outbuflen, i) == UnstuffFrom(out, outbuflen, 2)
    {
      ghost var done := buf[..len];
      ghost var i0 := i;
      if outbuffer[i] == DLE {
        i := i + 1;
        if outbuffer[i] == ETX {
          break;
        }
      }
      buf[len] := outbuffer[i];
      len := len + 1;
      i := i + 1;
      assert UnstuffFrom(out, outbuflen, i0) == [outbuffer[i - 1]] + UnstuffFrom(out, outbuflen, i);
      assert buf[..len] == done + [outbuffer[i - 1]];
      Assoc(done, [outbuffer[i - 1]], UnstuffFrom(out, outbuflen, i));
    }
    r := Data(buf[..len]);
  }

  lemma FrameEndStep(s: seq<byte>, n: nat, i: nat)
    requires i <= n <= |s| && FrameEnd(s[..n], i) >= 0
    ensures i + 1 < n
    ensures s[i] != DLE ==> FrameEnd(s[..n], i) == FrameEnd(s[..n], i + 1)
    ensures s[i] == DLE && s[i + 1] == DLE ==> FrameEnd(s[..n], i) == FrameEnd(s[..n], i + 2)
    ensures s[i] == DLE && s[i + 1] != DLE ==> s[i + 1] == ETX && FrameEnd(s[..n], i) == i
  {
  }

  lemma RestuffPlain(s: seq<byte>, i: nat, e: nat, rest: seq<byte>)
    requires i < e <= |s| && s[i] != DLE && s[i + 1..e] == Stuff(rest)
    ensures s[i..e] == Stuff([s[i]] + rest)
  {
    StuffCons(s[i], rest);
    assert s[i..e] == [s[i]] + s[i + 1..e];
  }

  lemma RestuffDouble(s: seq<byte>, i: nat, e: nat, rest: seq<byte>)
    requires i + 2 <= e <= |s| && s[i] == DLE && s[i + 1] == DLE && s[i + 2..e] == Stuff(rest)
    ensures s[i..e] == Stuff([s[i + 1]] + rest)
  {
    StuffCons(DLE, rest);
    assert s[i..e] == [s[i], s[i + 1]] + s[i + 2..e];
  }

  lemma UnstuffStep(s: seq<byte>, n: nat, i: nat)
    requires i < n < |s|
    ensures s[i] != DLE ==> UnstuffFrom(s, n, i) == [s[i]] + UnstuffFrom(s, n, i + 1)
    ensures s[i] == DLE && s[i + 1] == ETX ==> UnstuffFrom(s, n, i) == []
    ensures s[i] == DLE && s[i + 1] != ETX ==> UnstuffFrom(s, n, i) == [s[i + 1]] + UnstuffFrom(s, n, i + 2)
  {
  }

  // Wherever a frame ends properly, the bytes before its end are the stuffed form of what
  // the unstuffing takes from it.
  lemma {:induction false} UnstuffInverts(s: seq<byte>, n: nat, i: nat)
    requires i <= n < |s| && FrameEnd(s[..n], i) >= 0
    ensures i <= FrameEnd(s[..n], i) <= n - 2
    ensures s[i..FrameEnd(s[..n], i)] == Stuff(UnstuffFrom(s, n, i))
    decreases n - i
  {
    FrameEndStep(s, n, i);
    UnstuffStep(s, n, i);
    hide FrameEnd, UnstuffFrom, Stuff, StuffByte;
    var e := FrameEnd(s[..n], i);
    if s[i] != DLE {
      UnstuffInverts(s, n, i + 1);
      RestuffPlain(s, i, e, UnstuffFrom(s, n, i + 1));
    } else if s[i + 1] == DLE {
      UnstuffInverts(s, n, i + 2);
      RestuffDouble(s, i, e, UnstuffFrom(s, n, i + 2));
    } else {
      StuffNone();
    }
  }

  // What tsip_write builds, tsip_analyze takes apart, whatever lies behind it.
  lemma TsipRoundTrip(id: byte, p: seq<byte>, rest: seq<byte>)
    requires rest != []
    ensures FrameEnd(TsipPacket(id, p), 2) == |TsipPacket(id, p)| - 2
    ensures UnstuffFrom(TsipPacket(id, p) + rest, |TsipPacket(id, p)|, 2) == p
  {
    hide Stuff, StuffByte, FrameEnd, UnstuffFrom;
    var t := TsipPacket(id, p);
    var s := t + rest;
    FrameEndFound([DLE, id], p, []);
    assert t + [] == t && s[..|t|] == t;
    UnstuffInverts(s, |t|, 2);
    assert s[2..|t| - 2] == Stuff(p);
    StuffInjective(UnstuffFrom(s, |t|, 2), p);
  }
}
