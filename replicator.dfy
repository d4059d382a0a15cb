/** The traffic generator of LoRaReplicator.py: three fixed 5-byte addresses,
    six packet builders and the endless loop that transmits one exchange of six
    packets per pass for a randomly chosen meter. Packets are Python lists of
    ints; every packet is `receiver(5) ++ sender(5) ++ command(1)`, followed by a
    response byte for the acknowledgements, or by the payload and its length for
    SendData. */
module LoRaReplicator {

  /** A value that fits one byte on the serial line. */
  type Byte = b: int | 0 <= b < 256

  predicate IsByteList(s: seq<int>) { forall i :: 0 <= i < |s| ==> 0 <= s[i] < 256 }

  /** The simulated water meters. */
  const METER: seq<seq<int>> := [[0x00, 0x11, 0x11, 0x11, 0x11], [0x00, 0x22, 0x22, 0x22, 0x22]]
  /** The concentrator that collects the meters' data. */
  const CONCENTRATOR: seq<int> := [0x00, 0xFE, 0xFE, 0xFE, 0xFE]
  /** The address a meter uses before it has been associated. */
  const NEWASSMETER: seq<int> := [0x00, 0x00, 0x00, 0x00, 0xEE]

  const ASSOCIATION_REQUEST := 0x30
  const ASSOCIATION_CONFIRMATION := 0x31
  const D2S_REQUEST_READY_TO_SEND := 0x34
  const D2S_CLEAR_TO_SEND_DATA := 0x35
  const SEND_DATA := 0x36
  /** The same code as D2S_CLEAR_TO_SEND_DATA: LoRaReplicator.py reuses 0x35. */
  const SEND_DATA_RESPONSE := 0x35
  /** The response code every acknowledgement carries. */
  const RESPONSE_OK := 0x00

  /** GetPayload's fixed length and first byte. */
  const PAYLOAD_LENGTH := 27
  const PAYLOAD_MARKER := 0x80

  /** The command codes of one pass of the main loop, in transmission order. */
  const MAIN_ORDER: seq<int> := [ASSOCIATION_REQUEST, ASSOCIATION_CONFIRMATION, D2S_REQUEST_READY_TO_SEND,
                                 D2S_CLEAR_TO_SEND_DATA, SEND_DATA, SEND_DATA_RESPONSE]

  /** The shape every address constant has: five bytes, the first one 0x00. */
  predicate IsAddress(a: seq<int>) { |a| == 5 && a[0] == 0x00 && IsByteList(a) }

  /** The layout the builders write: receiver address at 0..4, sender address at
      5..9, command code at 10. */
  predicate Framed(packet: seq<int>, receiver: seq<int>, sender: seq<int>, command: int)
  {
    |packet| >= 11 && packet[..5] == receiver && packet[5..10] == sender && packet[10] == command
  }

  lemma AddressConstants()
    ensures forall i :: 0 <= i < |METER| ==> IsAddress(METER[i])
    ensures IsAddress(CONCENTRATOR) && IsAddress(NEWASSMETER)
    ensures METER[0] != METER[1]
    ensures forall i :: 0 <= i < |METER| ==> METER[i] != CONCENTRATOR && METER[i] != NEWASSMETER
    ensures CONCENTRATOR != NEWASSMETER
  {
    assert METER[0][1] != METER[1][1];
    assert METER[0][1] != CONCENTRATOR[1] && METER[1][1] != CONCENTRATOR[1];
    assert METER[0][1] != NEWASSMETER[1] && METER[1][1] != NEWASSMETER[1];
    assert CONCENTRATOR[1] != NEWASSMETER[1];
  }

  /** Receiver NEWASSMETER, sender CONCENTRATOR, command 0x30: eleven bytes. */
  function GenerateAssociationRequest(): (p: seq<int>)
    ensures |p| == 11 && Framed(p, NEWASSMETER, CONCENTRATOR, ASSOCIATION_REQUEST)
    ensures IsByteList(p)
  {
    NEWASSMETER + CONCENTRATOR + [ASSOCIATION_REQUEST]
  }

  /** Receiver CONCENTRATOR, sender the meter, command 0x31, response 0x00. */
  function GenerateAssociationConfirmation(meter: seq<int>): (p: seq<int>)
    ensures |p| == |meter| + 7
    ensures |meter| == 5 ==> Framed(p, CONCENTRATOR, meter, ASSOCIATION_CONFIRMATION) && p[11] == RESPONSE_OK
    ensures IsByteList(p) <==> IsByteList(meter)
  {
    var p := CONCENTRATOR + meter + [ASSOCIATION_CONFIRMATION] + [RESPONSE_OK];
    assert forall i :: 0 <= i < |meter| ==> p[5 + i] == meter[i];
    p
  }

  /** Receiver the meter, sender CONCENTRATOR, command 0x34. */
  function GenerateD2SRequestReadyToSend(meter: seq<int>): (p: seq<int>)
    ensures |p| == |meter| + 6
    ensures |meter| == 5 ==> Framed(p, meter, CONCENTRATOR, D2S_REQUEST_READY_TO_SEND)
    ensures IsByteList(p) <==> IsByteList(meter)
  {
    var p := meter + CONCENTRATOR + [D2S_REQUEST_READY_TO_SEND];
    assert forall i :: 0 <= i < |meter| ==> p[i] == meter[i];
    p
  }

  /** Receiver CONCENTRATOR, sender the meter, command 0x35, response 0x00. */
  function GenerateD2SClearToSendData(meter: seq<int>): (p: seq<int>)
    ensures |p| == |meter| + 7
    ensures |meter| == 5 ==> Framed(p, CONCENTRATOR, meter, D2S_CLEAR_TO_SEND_DATA) && p[11] == RESPONSE_OK
    ensures IsByteList(p) <==> IsByteList(meter)
  {
    var p := CONCENTRATOR + meter + [D2S_CLEAR_TO_SEND_DATA] + [RESPONSE_OK];
    assert forall i :: 0 <= i < |meter| ==> p[5 + i] == meter[i];
    p
  }

  /** What GenerateSendData builds around the payload GetPayload hands it:
      receiver the meter, sender CONCENTRATOR, command 0x36, the payload, and
      the payload's length as the last item. */
  function SendDataPacket(meter: seq<int>, payload: seq<int>): (p: seq<int>)
    ensures |p| == |meter| + |payload| + 7
    ensures |meter| == 5 ==> Framed(p, meter, CONCENTRATOR, SEND_DATA) && p[11..11 + |payload|] == payload
    ensures p[|p| - 1] == |payload|
  {
    meter + CONCENTRATOR + [SEND_DATA] + payload + [|payload|]
  }

  /** Receiver CONCENTRATOR, sender the meter, command 0x35, response 0x00. */
  function GenerateSendDataResponse(meter: seq<int>): (p: seq<int>)
    ensures |p| == |meter| + 7
    ensures |meter| == 5 ==> Framed(p, CONCENTRATOR, meter, SEND_DATA_RESPONSE) && p[11] == RESPONSE_OK
    ensures IsByteList(p) <==> IsByteList(meter)
  {
    var p := CONCENTRATOR + meter + [SEND_DATA_RESPONSE] + [RESPONSE_OK];
    assert forall i :: 0 <= i < |meter| ==> p[5 + i] == meter[i];
    p
  }

  /** The payload GetPayload returns when the random generator's successive
      draws for positions 1..26 are draw(1), ..., draw(26): 27 bytes, 0x80 first. */
  function Payload(draw: nat -> Byte): (p: seq<int>)
    ensures |p| == PAYLOAD_LENGTH && p[0] == PAYLOAD_MARKER
    ensures forall i :: 1 <= i < |p| ==> p[i] == draw(i)
    ensures IsByteList(p)
  {
    seq(PAYLOAD_LENGTH, i requires 0 <= i < PAYLOAD_LENGTH => if i == 0 then PAYLOAD_MARKER else draw(i))
  }

  /** The payload: the marker 0x80, then one random byte for each position 1..26,
      each inserted at its own index. */
  method GetPayload(draw: nat -> Byte) returns (load: seq<int>)
    ensures |load| == PAYLOAD_LENGTH && load[0] == PAYLOAD_MARKER
    ensures forall i :: 1 <= i < |load| ==> load[i] == draw(i)
    ensures IsByteList(load)
    ensures load == Payload(draw)
  {
    load := [PAYLOAD_MARKER];
    for f := 1 to PAYLOAD_LENGTH
      invariant |load| == f && load[0] == PAYLOAD_MARKER
      invariant forall i :: 1 <= i < f ==> load[i] == draw(i)
    {
      // list.insert(f, value)
      load := load[..f] + [draw(f)] + load[f..];
    }
  }

  /** The SendData packet: meter, concentrator, 0x36, the payload item by item,
      then the payload's length. */
  method GenerateSendData(meter: seq<int>, draw: nat -> Byte) returns (packet: seq<int>)
    ensures packet == SendDataPacket(meter, Payload(draw))
  {
    packet := [];
    packet := packet + meter;
    packet := packet + CONCENTRATOR;
    packet := packet + [SEND_DATA];
    var payload := GetPayload(draw);
    for k := 0 to |payload|
      invariant packet == meter + CONCENTRATOR + [SEND_DATA] + payload[..k]
    {
      packet := packet + [payload[k]];
    }
    assert payload[..|payload|] == payload;
    packet := packet + [|payload|];
  }

  lemma AssociationRequestBytes()
    ensures GenerateAssociationRequest() == [0x00, 0x00, 0x00, 0x00, 0xEE, 0x00, 0xFE, 0xFE, 0xFE, 0xFE, 0x30]
    ensures Framed(GenerateAssociationRequest(), NEWASSMETER, CONCENTRATOR, ASSOCIATION_REQUEST)
  {
  }

  lemma AssociationConfirmationLayout(meter: seq<int>)
    requires |meter| == 5
    ensures var p := GenerateAssociationConfirmation(meter);
      |p| == 12 && Framed(p, CONCENTRATOR, meter, ASSOCIATION_CONFIRMATION) && p[11] == RESPONSE_OK
  {
    var p := GenerateAssociationConfirmation(meter);
    assert p[..5] == CONCENTRATOR && p[5..10] == meter;
  }

  lemma RequestReadyToSendLayout(meter: seq<int>)
    requires |meter| == 5
    ensures var p := GenerateD2SRequestReadyToSend(meter);
      |p| == 11 && Framed(p, meter, CONCENTRATOR, D2S_REQUEST_READY_TO_SEND)
  {
    var p := GenerateD2SRequestReadyToSend(meter);
    assert p[..5] == meter && p[5..10] == CONCENTRATOR;
  }

  lemma ClearToSendDataLayout(meter: seq<int>)
    requires |meter| == 5
    ensures var p := GenerateD2SClearToSendData(meter);
      |p| == 12 && Framed(p, CONCENTRATOR, meter, D2S_CLEAR_TO_SEND_DATA) && p[11] == RESPONSE_OK
  {
    var p := GenerateD2SClearToSendData(meter);
    assert p[..5] == CONCENTRATOR && p[5..10] == meter;
  }

  lemma SendDataResponseLayout(meter: seq<int>)
    requires |meter| == 5
    ensures var p := GenerateSendDataResponse(meter);
      |p| == 12 && Framed(p, CONCENTRATOR, meter, SEND_DATA_RESPONSE) && p[11] == RESPONSE_OK
  {
    var p := GenerateSendDataResponse(meter);
    assert p[..5] == CONCENTRATOR && p[5..10] == meter;
  }

  /** The code 0x35 is reused: for every meter the clear-to-send packet and the
      send-data response are the same bytes. */
  lemma ClearToSendIsSendDataResponse(meter: seq<int>)
    ensures GenerateD2SClearToSendData(meter) == GenerateSendDataResponse(meter)
  {
  }

  /** SendData carries the payload at offset 11 and its length as the last item;
      the packet is all bytes exactly when the meter and payload are, and the
      payload is short enough for its length to fit one byte. */
  lemma SendDataLayout(meter: seq<int>, payload: seq<int>)
    requires |meter| == 5
    ensures var p := SendDataPacket(meter, payload);
      && |p| == 12 + |payload|
      && Framed(p, meter, CONCENTRATOR, SEND_DATA)
      && p[11..11 + |payload|] == payload
      && p[|p| - 1] == |payload|
      && (IsByteList(p) <==> IsByteList(meter) && IsByteList(payload) && |payload| < 256)
  {
    var p := SendDataPacket(meter, payload);
    assert p[..5] == meter && p[5..10] == CONCENTRATOR;
    assert p[11..11 + |payload|] == payload;
    if IsByteList(p) {
      assert forall i :: 0 <= i < |meter| ==> meter[i] == p[i];
      assert forall i :: 0 <= i < |payload| ==> payload[i] == p[11 + i];
    }
  }

  /** With GetPayload's payload, SendData is 39 bytes ending in 27 (0x1B). */
  lemma GeneratedSendDataLayout(meter: seq<int>, draw: nat -> Byte)
    requires IsAddress(meter)
    ensures var p := SendDataPacket(meter, Payload(draw));
      |p| == 39 && p[11] == PAYLOAD_MARKER && p[38] == 0x1B && IsByteList(p)
  {
    var payload := Payload(draw);
    SendDataLayout(meter, payload);
    assert p11: SendDataPacket(meter, payload)[11] == payload[0];
    assert IsByteList(payload);
  }

  /** The packets one pass of main's loop transmits, in order. */
  function IterationPackets(meter: seq<int>, payload: seq<int>): (ps: seq<seq<int>>)
    ensures |ps| == |MAIN_ORDER|
    ensures |meter| == 5 ==> forall k :: 0 <= k < |ps| ==> |ps[k]| >= 11 && ps[k][10] == MAIN_ORDER[k]
  {
    [GenerateAssociationRequest(), GenerateAssociationConfirmation(meter),
     GenerateD2SRequestReadyToSend(meter), GenerateD2SClearToSendData(meter),
     SendDataPacket(meter, payload), GenerateSendDataResponse(meter)]
  }

  /** The bytes of a list of packets sent one after another. */
  function Concat(packets: seq<seq<int>>): (wire: seq<int>)
  {
    if packets == [] then [] else packets[0] + Concat(packets[1..])
  }

  lemma IterationWire(meter: seq<int>, payload: seq<int>)
    ensures Concat(IterationPackets(meter, payload))
      == GenerateAssociationRequest() + GenerateAssociationConfirmation(meter)
       + GenerateD2SRequestReadyToSend(meter) + GenerateD2SClearToSendData(meter)
       + SendDataPacket(meter, payload) + GenerateSendDataResponse(meter)
  {
    var ps := IterationPackets(meter, payload);
    ConcatSix(ps[0], ps[1], ps[2], ps[3], ps[4], ps[5]);
    assert ps == [ps[0], ps[1], ps[2], ps[3], ps[4], ps[5]];
  }

  lemma ConcatSix(a: seq<int>, b: seq<int>, c: seq<int>, d: seq<int>, e: seq<int>, f: seq<int>)
    ensures Concat([a, b, c, d, e, f]) == a + b + c + d + e + f
  {
    var ps := [a, b, c, d, e, f];
    assert Concat(ps[5..]) == f by { assert ps[5..][1..] == []; }
    assert Concat(ps[4..]) == e + Concat(ps[5..]) by { assert ps[4..][1..] == ps[5..]; }
    assert Concat(ps[3..]) == d + Concat(ps[4..]) by { assert ps[3..][1..] == ps[4..]; }
    assert Concat(ps[2..]) == c + Concat(ps[3..]) by { assert ps[2..][1..] == ps[3..]; }
    assert Concat(ps[1..]) == b + Concat(ps[2..]) by { assert ps[1..][1..] == ps[2..]; }
  }

  /** The six packets of a pass, one by one: framed with two addresses and the
      pass's command code, and made of bytes. */
  lemma PassPackets(meter: seq<int>, draw: nat -> Byte)
    requires IsAddress(meter)
    ensures var ps := IterationPackets(meter, Payload(draw));
      forall k :: 0 <= k < |ps| ==>
        && |ps[k]| >= 11 && IsAddress(ps[k][..5]) && IsAddress(ps[k][5..10]) && ps[k][10] == MAIN_ORDER[k]
        && IsByteList(ps[k])
  {
    var ps := IterationPackets(meter, Payload(draw));
    AddressConstants();
    GeneratedSendDataLayout(meter, draw);
    assert ps[0][..5] == NEWASSMETER && ps[0][5..10] == CONCENTRATOR;
    assert ps[1][..5] == CONCENTRATOR && ps[1][5..10] == meter;
    assert ps[2][..5] == meter && ps[2][5..10] == CONCENTRATOR;
    assert ps[3][..5] == CONCENTRATOR && ps[3][5..10] == meter;
    assert ps[4][..5] == meter && ps[4][5..10] == CONCENTRATOR;
    assert ps[5][..5] == CONCENTRATOR && ps[5][5..10] == meter;
  }

  /** One pass of the main loop sends the six kinds in the order 0x30, 0x31,
      0x34, 0x35, 0x36, 0x35; in each packet bytes 0..9 are two addresses and
      byte 10 the command. With GetPayload's payload the pass is 97 bytes. */
  lemma {:induction false} IterationLayout(meter: seq<int>, draw: nat -> Byte)
    requires IsAddress(meter)
    ensures var ps := IterationPackets(meter, Payload(draw));
      && |ps| == |MAIN_ORDER|
      && (forall k :: 0 <= k < |ps| ==>
            |ps[k]| >= 11 && IsAddress(ps[k][..5]) && IsAddress(ps[k][5..10]) && ps[k][10] == MAIN_ORDER[k])
      && |Concat(ps)| == 97
      && IsByteList(Concat(ps))
  {
    var ps := IterationPackets(meter, Payload(draw));
    PassPackets(meter, draw);
    GeneratedSendDataLayout(meter, draw);
    IterationWire(meter, Payload(draw));
    assert |ps[0]| + |ps[1]| + |ps[2]| + |ps[3]| + |ps[4]| + |ps[5]| == 97;
    ByteListAppend(ps[0], ps[1]);
    ByteListAppend(ps[0] + ps[1], ps[2]);
    ByteListAppend(ps[0] + ps[1] + ps[2], ps[3]);
    ByteListAppend(ps[0] + ps[1] + ps[2] + ps[3], ps[4]);
    ByteListAppend(ps[0] + ps[1] + ps[2] + ps[3] + ps[4], ps[5]);
  }

  /** The bytes the main loop has put on the serial line after one pass per
      entry of `meterNos` (the random meter choices) and `draws` (each pass's
      random payload bytes): 97 bytes per pass, every value one byte. */
  function Transmitted(meterNos: seq<nat>, draws: seq<nat -> Byte>): (wire: seq<int>)
    requires |draws| == |meterNos|
    requires forall k :: 0 <= k < |meterNos| ==> meterNos[k] < |METER|
    ensures |wire| == 97 * |meterNos|
    ensures IsByteList(wire)
    decreases |meterNos|
  {
    if meterNos == [] then []
    else
      var n := |meterNos| - 1;
      var before := Transmitted(meterNos[..n], draws[..n]);
      var pass := Concat(IterationPackets(METER[meterNos[n]], Payload(draws[n])));
      AddressConstants();
      IterationLayout(METER[meterNos[n]], draws[n]);
      ByteListAppend(before, pass);
      before + pass
  }

  lemma ByteListAppend(a: seq<int>, b: seq<int>)
    requires IsByteList(a) && IsByteList(b)
    ensures IsByteList(a + b)
  {
    assert forall i :: 0 <= i < |b| ==> (a + b)[|a| + i] == b[i];
  }

  lemma PassAppended(before: seq<int>, after: seq<int>, meter: seq<int>, payload: seq<int>)
    requires after == before + GenerateAssociationRequest() + GenerateAssociationConfirmation(meter)
      + GenerateD2SRequestReadyToSend(meter) + GenerateD2SClearToSendData(meter)
      + SendDataPacket(meter, payload) + GenerateSendDataResponse(meter)
    ensures after == before + Concat(IterationPackets(meter, payload))
  {
    IterationWire(meter, payload);
    AppendSix(before, GenerateAssociationRequest(), GenerateAssociationConfirmation(meter),
              GenerateD2SRequestReadyToSend(meter), GenerateD2SClearToSendData(meter),
              SendDataPacket(meter, payload), GenerateSendDataResponse(meter));
  }

  lemma AppendSix(w: seq<int>, a: seq<int>, b: seq<int>, c: seq<int>, d: seq<int>, e: seq<int>, f: seq<int>)
    ensures w + a + b + c + d + e + f == w + (a + b + c + d + e + f)
  {
  }

  /** Each pass appends one exchange of 97 bytes to what was transmitted before. */
  lemma TransmittedStep(meterNos: seq<nat>, draws: seq<nat -> Byte>, n: nat, before: seq<int>, after: seq<int>)
    requires |draws| == |meterNos| && n < |meterNos|
    requires forall k :: 0 <= k < |meterNos| ==> meterNos[k] < |METER|
    requires before == Transmitted(meterNos[..n], draws[..n]) && |before| == 97 * n && IsByteList(before)
    requires var meter := METER[meterNos[n]];
      after == before + GenerateAssociationRequest() + GenerateAssociationConfirmation(meter)
        + GenerateD2SRequestReadyToSend(meter) + GenerateD2SClearToSendData(meter)
        + SendDataPacket(meter, Payload(draws[n])) + GenerateSendDataResponse(meter)
    ensures after == Transmitted(meterNos[..n + 1], draws[..n + 1])
    ensures |after| == 97 * (n + 1) && IsByteList(after)
  {
    var meter := METER[meterNos[n]];
    var pass := Concat(IterationPackets(meter, Payload(draws[n])));
    PassAppended(before, after, meter, Payload(draws[n]));
    TransmittedUnfold(meterNos, draws, n);
  }

  lemma TransmittedUnfold(meterNos: seq<nat>, draws: seq<nat -> Byte>, n: nat)
    requires |draws| == |meterNos| && n < |meterNos|
    requires forall k :: 0 <= k < |meterNos| ==> meterNos[k] < |METER|
    ensures Transmitted(meterNos[..n + 1], draws[..n + 1])
      == Transmitted(meterNos[..n], draws[..n]) + Concat(IterationPackets(METER[meterNos[n]], Payload(draws[n])))
  {
    var ms, ds := meterNos[..n + 1], draws[..n + 1];
    assert ms[..n] == meterNos[..n] && ds[..n] == draws[..n];
  }

  /** The main loop, one pass per meter choice: every pass transmits the six
      packets of one exchange, 97 bytes in all, each value one byte. */
  method RunReplicator(meterNos: seq<nat>, draws: seq<nat -> Byte>) returns (wire: seq<int>)
    requires |draws| == |meterNos|
    requires forall k :: 0 <= k < |meterNos| ==> meterNos[k] < |METER|
    ensures wire == Transmitted(meterNos, draws)
    ensures |wire| == 97 * |meterNos|
    ensures IsByteList(wire)
  {
    wire := [];
    for n := 0 to |meterNos|
      invariant wire == Transmitted(meterNos[..n], draws[..n])
      invariant |wire| == 97 * n && IsByteList(wire)
    {
      ghost var before := wire;
      var meter := METER[meterNos[n]];
      var data := GenerateAssociationRequest();
      wire := wire + data;
      data := GenerateAssociationConfirmation(meter);
      wire := wire + data;
      data := GenerateD2SRequestReadyToSend(meter);
      wire := wire + data;
      data := GenerateD2SClearToSendData(meter);
      wire := wire + data;
      data := GenerateSendData(meter, draws[n]);
      wire := wire + data;
      data := GenerateSendDataResponse(meter);
      wire := wire + data;
      TransmittedStep(meterNos, draws, n, before, wire);
    }
    assert meterNos[..|meterNos|] == meterNos && draws[..|draws|] == draws;
  }
}
