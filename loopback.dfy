/** The replicator's packets as the monitor decodes them. The replicator is a
    test generator whose transmit line is wired back to the monitor's receive
    line. A displayed row is whatever one poll read last before a tick, which
    may be part of a packet or pieces of several; the per-kind lemmas and
    LoopbackInspect follow the case where that read is exactly one packet. */
module Loopback {
  import opened ListText
  import opened LoRaReplicator
  import opened LoRaMonitor

  /** On a framed packet, Decode's "sender" slice holds the packet's receiver
      address and its "receiver" slice the sender address: the labels are
      swapped. Whatever follows the command is all shown as "payload". */
  lemma DecodeFramed(p: seq<int>, receiver: seq<int>, sender: seq<int>, command: int)
    requires Framed(p, receiver, sender, command)
    ensures DecodeList(p) == Decoded(receiver, sender, [command], p[11..])
  {
    var d := DecodeList(p);
    assert p == receiver + sender + [command] + p[11..] by {
      assert p == p[..5] + p[5..10] + [p[10]] + p[11..];
    }
    SameSplit(d.sender, d.receiver, d.command, d.payload, receiver, sender, [command], p[11..]);
  }

  lemma DecodeAssociationRequest()
    ensures DecodeList(GenerateAssociationRequest()) == Decoded(NEWASSMETER, CONCENTRATOR, [ASSOCIATION_REQUEST], [])
  {
    AssociationRequestBytes();
    DecodeFramed(GenerateAssociationRequest(), NEWASSMETER, CONCENTRATOR, ASSOCIATION_REQUEST);
  }

  /** The response code of an acknowledgement is shown as a one-item payload. */
  lemma DecodeAssociationConfirmation(meter: seq<int>)
    requires |meter| == 5
    ensures DecodeList(GenerateAssociationConfirmation(meter))
      == Decoded(CONCENTRATOR, meter, [ASSOCIATION_CONFIRMATION], [RESPONSE_OK])
  {
    AssociationConfirmationLayout(meter);
    DecodeFramed(GenerateAssociationConfirmation(meter), CONCENTRATOR, meter, ASSOCIATION_CONFIRMATION);
  }

  lemma DecodeRequestReadyToSend(meter: seq<int>)
    requires |meter| == 5
    ensures DecodeList(GenerateD2SRequestReadyToSend(meter))
      == Decoded(meter, CONCENTRATOR, [D2S_REQUEST_READY_TO_SEND], [])
  {
    RequestReadyToSendLayout(meter);
    DecodeFramed(GenerateD2SRequestReadyToSend(meter), meter, CONCENTRATOR, D2S_REQUEST_READY_TO_SEND);
  }

  lemma DecodeClearToSendData(meter: seq<int>)
    requires |meter| == 5
    ensures DecodeList(GenerateD2SClearToSendData(meter))
      == Decoded(CONCENTRATOR, meter, [D2S_CLEAR_TO_SEND_DATA], [RESPONSE_OK])
  {
    ClearToSendDataLayout(meter);
    DecodeFramed(GenerateD2SClearToSendData(meter), CONCENTRATOR, meter, D2S_CLEAR_TO_SEND_DATA);
  }

  /** The payload slice of SendData is the payload followed by its length byte. */
  lemma DecodeSendData(meter: seq<int>, payload: seq<int>)
    requires |meter| == 5
    ensures DecodeList(SendDataPacket(meter, payload))
      == Decoded(meter, CONCENTRATOR, [SEND_DATA], payload + [|payload|])
  {
    var p := SendDataPacket(meter, payload);
    SendDataLayout(meter, payload);
    assert p[11..] == payload + [|payload|];
    DecodeFramed(p, meter, CONCENTRATOR, SEND_DATA);
  }

  lemma DecodeSendDataResponse(meter: seq<int>)
    requires |meter| == 5
    ensures DecodeList(GenerateSendDataResponse(meter))
      == Decoded(CONCENTRATOR, meter, [SEND_DATA_RESPONSE], [RESPONSE_OK])
  {
    SendDataResponseLayout(meter);
    DecodeFramed(GenerateSendDataResponse(meter), CONCENTRATOR, meter, SEND_DATA_RESPONSE);
  }

  /** One packet through the monitor: the poller hands over what it read (as
      GetValue does, only when something was read), capture is on, one timer
      tick displays it, and a click on the top row decodes it. The detailed view
      then shows the decimal text of the packet's receiver under "Sender", of
      its sender under "Receiver", and of its command. */
  method LoopbackInspect(received: seq<int>, receiver: seq<int>, sender: seq<int>, command: int)
    returns (view: Decoded<string>)
    requires Framed(received, receiver, sender, command)
    ensures view.sender == Decimals(receiver) && view.receiver == Decimals(sender)
    ensures view.command == [IntDecimal(command)]
    ensures view.payload == Decimals(received[11..])
  {
    var app := new App();
    app.Capture();
    if |received| > 0 {
      app.SetStream(received);
    }
    app.Running();
    assert app.rows == [received];
    app.SelectText([0]);
    assert app.selectedList == Decimals(received);
    view := app.DecodedView();
    FramedShown(received, receiver, sender, command);
  }

  /** The decimal texts of a framed packet's items, decoded, put the receiver's
      text under "Sender" and the sender's under "Receiver". */
  lemma FramedShown(p: seq<int>, receiver: seq<int>, sender: seq<int>, command: int)
    requires Framed(p, receiver, sender, command)
    ensures DecodeList(Decimals(p))
      == Decoded(Decimals(receiver), Decimals(sender), [IntDecimal(command)], Decimals(p[11..]))
  {
    var d := DecodeList(p);
    var t := DecodeList(Decimals(p));
    DecodeFramed(p, receiver, sender, command);
    DecimalsAppend(receiver, sender);
    DecimalsAppend(receiver + sender, [command]);
    DecimalsAppend(receiver + sender + [command], p[11..]);
    SameSplit(t.sender, t.receiver, t.command, t.payload,
              Decimals(receiver), Decimals(sender), Decimals([command]), Decimals(p[11..]));
  }
}
