/** The command stream between tools/telemetry_server.py, which encodes packets, and src/telemetry.cpp, which parses them
  byte by byte. */
module Telemetry {
  import opened Wrappers

  type Byte = b: nat | b < 256

  // A command: its type and its payload.
  datatype Command = Command(kind: Byte, payload: seq<Byte>)

  const MAX_PAYLOAD: nat := 255

  // ---- The encoder ----

  // TelemetryCommandPacket.to_bytes: packing the length into one byte fails above 255.
  function ToBytes(c: Command): Option<seq<Byte>> {
    if |c.payload| > MAX_PAYLOAD then None else Some([c.kind, |c.payload|] + c.payload)
  }

  predicate Encodable(c: Command) {
    ToBytes(c).Some?
  }

  predicate AllEncodable(cs: seq<Command>) {
    forall i :: 0 <= i < |cs| ==> Encodable(cs[i])
  }

  predicate Encodes(c: Command, s: seq<Byte>) {
    Encodable(c) && ToBytes(c).value == s
  }

  function EncodeAll(cs: seq<Command>): seq<Byte>
    requires AllEncodable(cs)
  {
    if cs == [] then [] else EncodeAll(cs[..|cs| - 1]) + ToBytes(cs[|cs| - 1]).value
  }

  // A strict prefix of some encoding.
  predicate Incomplete(s: seq<Byte>) {
    |s| < 2 || |s| - 2 < s[1]
  }

  lemma IncompleteIff(s: seq<Byte>)
    ensures Incomplete(s) <==> exists c :: Encodable(c) && s < ToBytes(c).value
  {
    if Incomplete(s) {
      var kind: Byte := if |s| > 0 then s[0] else 0;
      var len: nat := if |s| > 1 then s[1] else 0;
      var have := if |s| > 2 then s[2..] else [];
      var c := Command(kind, have + Repeated(0, len - |have|));
      assert s < ToBytes(c).value;
    }
  }

  // ---- The parser ----

  // telemetry_rx_packet_t: only the first len bytes of data mean something.
  datatype RxPacket = RxPacket(kind: Byte, len: Byte, data: seq<Byte>)

  function CommandOf(p: RxPacket): Command
    requires p.len <= |p.data|
  {
    Command(p.kind, p.data[..p.len])
  }

  datatype ParseState = TYPE | LEN | DATA

  class TelemetryPacketParser {
    var parseState: ParseState
    var kind: Byte
    var len: Byte
    const data: array<Byte>
    var parsedDataBytes: nat

    ghost predicate Valid()
      reads this, data
    {
      && data.Length == MAX_PAYLOAD
      && (parseState != DATA ==> parsedDataBytes == 0)
      && (parseState == DATA ==> parsedDataBytes < len)
    }

    // The bytes since the last packet.
    ghost function Pending(): (s: seq<Byte>)
      requires Valid()
      reads this, data
      ensures Incomplete(s)
    {
      match parseState
      case TYPE => []
      case LEN => [kind]
      case DATA => [kind, len] + data[..parsedDataBytes]
    }

    constructor ()
      ensures Valid() && fresh(data) && Pending() == []
    {
      data := new Byte[MAX_PAYLOAD](_ => 0);
      kind, len := 0, 0;
      parseState, parsedDataBytes := TYPE, 0;
    }

    method ResetParseState()
      modifies this`parseState, this`parsedDataBytes
      ensures parseState == TYPE && parsedDataBytes == 0
    {
      parseState := TYPE;
      parsedDataBytes := 0;
    }

    // A packet is found exactly when the pending bytes and this one are its encoding.
    method ParseByte(byte: Byte) returns (foundPacket: bool, packet: RxPacket)
      requires Valid()
      modifies this, data
      ensures Valid()
      ensures foundPacket <==> !Incomplete(old(Pending()) + [byte])
      ensures foundPacket ==> packet.len <= |packet.data| && Encodes(CommandOf(packet), old(Pending()) + [byte])
      ensures Pending() == if foundPacket then [] else old(Pending()) + [byte]
    {
      foundPacket := false;
      packet := RxPacket(0, 0, []);
      match parseState {
        case TYPE =>
          kind := byte;
          parseState := LEN;
        case LEN =>
          len := byte;
          parseState := DATA;
          if len == 0 {
            foundPacket := true;
          }
        case DATA =>
          data[parsedDataBytes] := byte;
          parsedDataBytes := parsedDataBytes + 1;
          assert data[..parsedDataBytes] == old(data[..parsedDataBytes]) + [byte];
          if parsedDataBytes >= len {
            foundPacket := true;
          }
      }
      if foundPacket {
        packet := RxPacket(kind, len, data[..]);
        assert packet.data[..len] == data[..len];
        ResetParseState();
      }
    }
  }

  // ---- Streams ----

  // Feeds a stream of bytes: it is the encodings of the packets found, in order, and what is still pending.
  method ParseStream(parser: TelemetryPacketParser, bytes: seq<Byte>) returns (commands: seq<Command>)
    requires parser.Valid()
    modifies parser, parser.data
    ensures parser.Valid() && AllEncodable(commands)
    ensures EncodeAll(commands) + parser.Pending() == old(parser.Pending()) + bytes
    ensures forall cs: seq<Command> :: AllEncodable(cs) && EncodeAll(cs) == old(parser.Pending()) + bytes ==>
      commands == cs && parser.Pending() == []
  {
    commands := [];
    ghost var start := parser.Pending();
    for i := 0 to |bytes|
      invariant parser.Valid() && AllEncodable(commands)
      invariant EncodeAll(commands) + parser.Pending() == start + bytes[..i]
    {
      ghost var done := EncodeAll(commands);
      ghost var pending := parser.Pending();
      assert start + bytes[..i + 1] == (start + bytes[..i]) + [bytes[i]];
      assert (done + pending) + [bytes[i]] == done + (pending + [bytes[i]]);
      var found, packet := parser.ParseByte(bytes[i]);
      if found {
        var c := CommandOf(packet);
        assert (commands + [c])[..|commands|] == commands;
        commands := commands + [c];
      }
    }
    forall cs: seq<Command> | AllEncodable(cs) && EncodeAll(cs) == start + bytes
      ensures commands == cs && parser.Pending() == []
    {
      assert EncodeAll(cs) + [] == EncodeAll(cs);
      OneReading(commands, parser.Pending(), cs, []);
    }
  }

  // The other direction of the recursion: a stream begins with the encoding of its first command.
  lemma {:induction false} EncodeFirst(cs: seq<Command>)
    requires cs != [] && AllEncodable(cs)
    ensures EncodeAll(cs) == ToBytes(cs[0]).value + EncodeAll(cs[1..])
  {
    var last := |cs| - 1;
    if last == 0 {
      assert cs[..last] == [] && cs[1..] == [];
    } else {
      EncodeFirst(cs[..last]);
      var middle, first, end := cs[1..][..last - 1], ToBytes(cs[0]).value, ToBytes(cs[last]).value;
      assert cs[..last][1..] == middle && cs[..last][0] == cs[0] && cs[1..][last - 1] == cs[last];
      assert (first + EncodeAll(middle)) + end == first + (EncodeAll(middle) + end);
    }
  }

  // A stream is read in one way only: as a list of commands and an incomplete rest.
  lemma {:induction false} OneReading(cs: seq<Command>, rest: seq<Byte>, cs': seq<Command>, rest': seq<Byte>)
    requires AllEncodable(cs) && AllEncodable(cs')
    requires Incomplete(rest) && Incomplete(rest') && EncodeAll(cs) + rest == EncodeAll(cs') + rest'
    ensures cs == cs' && rest == rest'
  {
    if cs == [] && cs' == [] {
      assert EncodeAll(cs) + rest == rest && EncodeAll(cs') + rest' == rest';
    } else if cs == [] {
      assert EncodeAll(cs) + rest == rest;
      CommandFirst(cs', rest');
    } else if cs' == [] {
      assert EncodeAll(cs') + rest' == rest';
      CommandFirst(cs, rest);
    } else {
      CommandFirst(cs, rest);
      CommandFirst(cs', rest');
      var a, b := ToBytes(cs[0]).value, ToBytes(cs'[0]).value;
      var more, more' := EncodeAll(cs[1..]) + rest, EncodeAll(cs'[1..]) + rest';
      assert a + more == b + more';
      SameHead(cs[0], more, cs'[0], more');
      OneReading(cs[1..], rest, cs'[1..], rest');
      assert cs == [cs[0]] + cs[1..] && cs' == [cs'[0]] + cs'[1..];
    }
  }

  lemma CommandFirst(cs: seq<Command>, rest: seq<Byte>)
    requires cs != [] && AllEncodable(cs)
    ensures EncodeAll(cs) + rest == ToBytes(cs[0]).value + (EncodeAll(cs[1..]) + rest)
    ensures !Incomplete(EncodeAll(cs) + rest)
  {
    EncodeFirst(cs);
  }

  // The length byte separates a command from what follows.
  lemma SameHead(c: Command, more: seq<Byte>, c': Command, more': seq<Byte>)
    requires Encodable(c) && Encodable(c') && ToBytes(c).value + more == ToBytes(c').value + more'
    ensures c == c' && more == more'
  {
    var s := ToBytes(c).value + more;
    var t := ToBytes(c').value + more';
    assert s[0] == c.kind && s[1] == |c.payload| && t[0] == c'.kind && t[1] == |c'.payload|;
    var n := |c.payload|;
    assert s[2..2 + n] == c.payload && t[2..2 + n] == c'.payload;
    assert s[2 + n..] == more && t[2 + n..] == more';
  }

  // The ping packet, written out in the server as two bytes, is the encoding of an empty command.
  const PING: Byte := 0x10

  lemma PingIsCommand()
    ensures Encodes(Command(PING, []), [0x10, 0x00])
  {
  }
}
