# LoRa meter/concentrator packets: replicator and monitor

This project models the two halves of the LoRaMonitor repository's packet handling:

- **LoRaReplicator** (`replicator.dfy`) is the test traffic generator. It has three address
  constants holding four 5-byte addresses: two meters, the concentrator and the "new,
  unassociated meter". It has six packet builders and a main loop that picks a meter and
  transmits one exchange of six packets per pass. Every packet is `receiver(5) ++ sender(5) ++ command(1)`. The
  acknowledgements then carry a response byte `0x00`. SendData carries a payload followed
  by the payload's length. The payload is `0x80` and then 26 random bytes. The codes are
  0x30, 0x31, 0x34, 0x35, 0x36 and 0x35: clear-to-send and send-data-response share 0x35,
  so they are the same bytes.
- **LoRaMonitor** (`monitor.dfy`) is the receiving GUI's state. The model keeps that state
  and drops the Tk widgets. A poller hands over batches of received values (`SetStream`).
  While capture is on, a timer tick moves the batch to the top row of the list
  (`UpdateStream`). A click on a row turns the row's text back into a list: it strips the
  brackets and splits on `", "` (`SelectText`). `Decode` slices the list at fixed offsets
  0:5, 5:10, 10:11 and 11:end.
- **ListText** (`list_text.dfy`) gives Python's text form of a list of ints,
  `str(xs) == "[a, b, c]"`, and Python's `strip` and `split`.
- **Loopback** (`loopback.dfy`) connects the two sides. The replicator's transmit line is
  wired back to the monitor's receive line. A displayed row is whatever one poll read last
  before a tick, so it may be part of a packet or pieces of several. The per-packet results
  cover a read that is exactly one packet; `DecodeShownRow` covers any row.

Main results:

- `ParseShow`: the monitor's parse reads a displayed list back exactly. A non-empty list
  gives the decimal text of each item. The empty list gives `[""]`.
- Joining the pieces of a split gives back any string (`JoinSplit`); splitting a join gives
  back the pieces when none of them holds a ',' (`SplitJoin`).
- `IntDecimalValue`: the decimal text of every item reads back as the item.
- `DecodeFramed` shows the monitor's labels are swapped. For any framed packet, the slice
  shown as "Sender" holds the packet's receiver address, and the slice shown as "Receiver"
  holds its sender address. `Decode` also shows everything after the command as
  "payload": the response byte, or the payload together with its length byte.
- `RunReplicator` shows the main loop sends 97 bytes per pass, all of them bytes. Each pass
  is the six kinds in their fixed order.

## Model

| member | source | states |
|---|---|---|
| LoRaReplicator.AddressConstants | LoRaReplicator.py:24-26 | every address constant is 5 bytes with first byte 0x00; the two meters differ from each other, from the concentrator and from the unassociated-meter address |
| LoRaReplicator.GenerateAssociationRequest | LoRaReplicator.py:65-77 | 11 bytes, all of them bytes: receiver NEWASSMETER, sender CONCENTRATOR, command 0x30 |
| LoRaReplicator.GenerateAssociationConfirmation | LoRaReplicator.py:79-93 | the meter plus 7 items; for a 5-byte meter: receiver CONCENTRATOR, sender the meter, command 0x31, response byte 0x00 at 11; all bytes iff the meter is |
| LoRaReplicator.GenerateD2SRequestReadyToSend | LoRaReplicator.py:95-107 | the meter plus 6 items; for a 5-byte meter: receiver the meter, sender CONCENTRATOR, command 0x34; all bytes iff the meter is |
| LoRaReplicator.GenerateD2SClearToSendData | LoRaReplicator.py:109-123 | the meter plus 7 items; for a 5-byte meter: receiver CONCENTRATOR, sender the meter, command 0x35, response byte 0x00 at 11; all bytes iff the meter is |
| LoRaReplicator.SendDataPacket | LoRaReplicator.py:125-144 | the meter and payload plus 7 items; for a 5-byte meter: receiver the meter, sender CONCENTRATOR, command 0x36, the payload at 11; the last item is the payload's length |
| LoRaReplicator.GenerateSendDataResponse | LoRaReplicator.py:146-160 | the meter plus 7 items; for a 5-byte meter: receiver CONCENTRATOR, sender the meter, command 0x35, response byte 0x00 at 11; all bytes iff the meter is |
| LoRaReplicator.Payload | LoRaReplicator.py:53-63 | 27 items, 0x80 first, the value drawn for index i at each index 1..26, every item a byte |
| LoRaReplicator.Transmitted | LoRaReplicator.py:186-208 | after n passes the line holds 97·n values, every one a byte |
| LoRaReplicator.GetPayload | LoRaReplicator.py:53-63 | the payload has 27 items: 0x80 first, then at each index 1..26 the value drawn for that index (each inserted at its own position); every item is a byte |
| LoRaReplicator.AssociationRequestBytes | LoRaReplicator.py:65-77 | the association request is exactly `00 00 00 00 EE 00 FE FE FE FE 30`: receiver NEWASSMETER, sender CONCENTRATOR, command 0x30 |
| LoRaReplicator.AssociationConfirmationLayout | LoRaReplicator.py:79-93 | for a 5-byte meter: 12 bytes, receiver CONCENTRATOR, sender the meter, command 0x31, response byte 0x00 |
| LoRaReplicator.RequestReadyToSendLayout | LoRaReplicator.py:95-107 | for a 5-byte meter: 11 bytes, receiver the meter, sender CONCENTRATOR, command 0x34 |
| LoRaReplicator.ClearToSendDataLayout | LoRaReplicator.py:109-123 | for a 5-byte meter: 12 bytes, receiver CONCENTRATOR, sender the meter, command 0x35, response byte 0x00 |
| LoRaReplicator.SendDataResponseLayout | LoRaReplicator.py:146-160 | for a 5-byte meter: 12 bytes, receiver CONCENTRATOR, sender the meter, command 0x35, response byte 0x00 |
| LoRaReplicator.ClearToSendIsSendDataResponse | LoRaReplicator.py:146-160 | for every meter, the send-data response is byte for byte the clear-to-send packet of lines 109-123 (code 0x35 reused) |
| LoRaReplicator.GenerateSendData | LoRaReplicator.py:125-144 | the packet is the meter, CONCENTRATOR, 0x36, the payload GetPayload returns (appended item by item), then the payload's length |
| LoRaReplicator.SendDataLayout | LoRaReplicator.py:125-144 | for any payload p: length 12 + \|p\|, framed meter/CONCENTRATOR/0x36, bytes 11..10+\|p\| are p, the last item is \|p\|; the packet is all bytes iff meter and p are bytes and \|p\| < 256 |
| LoRaReplicator.GeneratedSendDataLayout | LoRaReplicator.py:138-142 | with GetPayload's payload, SendData is 39 bytes, byte 11 is 0x80 and the last byte is 0x1B |
| LoRaReplicator.IterationPackets | LoRaReplicator.py:193-208 | one pass of `main` builds six packets; for a 5-byte meter each is at least 11 long with byte 10 the code 0x30, 0x31, 0x34, 0x35, 0x36, 0x35 in that order (the full layout is IterationLayout's) |
| LoRaReplicator.PassPackets | LoRaReplicator.py:193-208 | each of the six packets of a pass has two addresses at 0..9, the pass's command code at 10, and is made of bytes |
| LoRaReplicator.IterationLayout | LoRaReplicator.py:193-208 | one pass sends 0x30, 0x31, 0x34, 0x35, 0x36, 0x35 in that order; in each packet bytes 0..9 are two addresses and byte 10 is the command; the pass is 97 bytes, all bytes |
| LoRaReplicator.RunReplicator | LoRaReplicator.py:186-208 | after n passes (meter chosen from METER, payload drawn per pass) the line carries the n exchanges in order, 97·n bytes, every one a byte |
| LoRaMonitor.DecodeList | LoRaMonitor.py:133-145 | the four slices [0:5], [5:10], [10:11], [11:] concatenate back to the list; their lengths are min(5,n), min(10,n)−min(5,n), min(11,n)−min(10,n); no length of list is an error |
| LoRaMonitor.App.Decode | LoRaMonitor.py:133-145 | the four decoded fields become the slices of the selected list |
| LoRaMonitor.DecodeShownRow | LoRaMonitor.py:124-143 | decoding a clicked row gives the decimal text of each slice of the list that was displayed in it |
| LoRaMonitor.ParsedRow | LoRaMonitor.py:124-128 | stripping then splitting a displayed row gives the decimal text of its items, or [""] for an empty row |
| LoRaMonitor.App.constructor | LoRaMonitor.py:35-49 | capture off, no pending batch, no rows, nothing selected, decoded fields empty |
| LoRaMonitor.App.Running | LoRaMonitor.py:90-97 | while capturing a tick behaves as UpdateStream; while paused the batch and the rows are unchanged |
| LoRaMonitor.App.SetStream | LoRaMonitor.py:100-102 | the pending batch is replaced by the new one, not appended to |
| LoRaMonitor.App.UpdateStream | LoRaMonitor.py:104-114 | a non-empty batch becomes the new top row and the batch empties; an empty batch changes nothing |
| LoRaMonitor.App.SelectText | LoRaMonitor.py:116-131 | the selection is recorded; with no selection nothing else changes; otherwise the text is the row stripped of brackets, the list is its split on ", ", which is the decimal text of the row's items (or [""] for an empty row), and the decoded fields are its slices |
| LoRaMonitor.App.Capture | LoRaMonitor.py:147-151 | capture is on |
| LoRaMonitor.App.Pause | LoRaMonitor.py:167-171 | capture is off |
| LoRaMonitor.App.Clear | LoRaMonitor.py:157-165 | the pending batch and the rows are empty |
| LoRaMonitor.Slice | LoRaMonitor.py:137-143 | Python's `s[i:j]`: the length is clamped to the list (0 for an empty or reversed range) and item k is s[i+k] |
| ListText.JoinFirst | LoRaMonitor.py:112 | the `", "` join inside the row text `str(list)` starts with the first item's text |
| ListText.JoinLast | LoRaMonitor.py:112 | the `", "` join inside the row text `str(list)` ends with the last item's text |
| ListText.Show | LoRaMonitor.py:112 | the text of an inserted row: starts with '[' and ends with ']', and is "[]" exactly for the empty list |
| ListText.Strip | LoRaMonitor.py:127 | `strip("[]")`: at most as long as the text, and neither end of the result is a bracket |
| ListText.StripExtremes | LoRaMonitor.py:127 | a text with no bracket is kept whole by `strip("[]")`, and one made only of brackets vanishes |
| ListText.Split | LoRaMonitor.py:128 | `split(", ")` always gives at least one piece, even for an empty text |
| ListText.SplitPieces | LoRaMonitor.py:128 | the first piece of `split(sep)` is where the text starts, and no piece contains sep |
| ListText.ParseRow | LoRaMonitor.py:127-128 | strip-then-split of any row text gives at least one piece, none containing ", " |
| ListText.NatDecimal | LoRaMonitor.py:112 | Python's `str(n)` for a non-negative item of a row: at least one character, all decimal digits |
| ListText.IntDecimal | LoRaMonitor.py:112 | Python's `str(x)` for any item of a row: non-empty, ends in a digit, every character a digit or '-' |
| ListText.NatDecimalValue | LoRaMonitor.py:112 | the digits of a non-negative item in a row read back as that item |
| ListText.IntDecimalValue | LoRaMonitor.py:112 | the text of any item in a row (sign and digits) reads back as that item |
| ListText.StripLeading | LoRaMonitor.py:127 | the result is a suffix, everything removed is a bracket, and the result does not start with one (the longest such prefix is removed) |
| ListText.StripTrailing | LoRaMonitor.py:127 | the result is a prefix, everything removed is a bracket, and the result does not end with one |
| ListText.JoinSplit | LoRaMonitor.py:128 | joining the pieces of a split with the separator gives back the string |
| ListText.SplitJoin | LoRaMonitor.py:128 | splitting a join of pieces that hold no ',' gives back the pieces |
| ListText.ParseShow | LoRaMonitor.py:127-128 | strip-then-split of "[a, b, c]" is ["a", "b", "c"] for every non-empty list of ints, and "[]" gives [""] |
| Loopback.DecodeFramed | LoRaMonitor.py:137-143 | for any packet framed receiver/sender/command, Decode shows the receiver under "Sender", the sender under "Receiver", [command] as command and everything after byte 10 as payload |
| Loopback.FramedShown | LoRaMonitor.py:137-143 | for a framed packet shown as text, Decode puts the receiver's decimal text under "Sender", the sender's under "Receiver", the command's as command and the rest as payload |
| Loopback.DecodeAssociationRequest | LoRaReplicator.py:65-77 | Decode of the association request: "sender" NEWASSMETER (the receiver), "receiver" CONCENTRATOR, command [0x30], empty payload |
| Loopback.DecodeAssociationConfirmation | LoRaReplicator.py:79-93 | Decode of the confirmation: "sender" CONCENTRATOR, "receiver" the meter, command [0x31], payload [0x00] (the response byte) |
| Loopback.DecodeRequestReadyToSend | LoRaReplicator.py:95-107 | Decode of ready-to-send: "sender" the meter, "receiver" CONCENTRATOR, command [0x34], empty payload |
| Loopback.DecodeClearToSendData | LoRaReplicator.py:109-123 | Decode of clear-to-send: "sender" CONCENTRATOR, "receiver" the meter, command [0x35], payload [0x00] |
| Loopback.DecodeSendData | LoRaReplicator.py:125-144 | Decode of SendData: "sender" the meter, "receiver" CONCENTRATOR, command [0x36], payload the payload followed by its length |
| Loopback.DecodeSendDataResponse | LoRaReplicator.py:146-160 | Decode of the send-data response: "sender" CONCENTRATOR, "receiver" the meter, command [0x35], payload [0x00] |
| Loopback.LoopbackInspect | LoRaMonitor.py:177-186 | a framed packet handed over by the poller, displayed by a tick while capturing and clicked, shows its receiver's decimal text as "Sender", its sender's as "Receiver", its command's and the rest as payload |

## Left out

- LoRaCommunicator.py is not part of this model: it only wraps the `wiringpi` serial calls, `time.sleep` and `sys.exit`.
- `SetupUART` and `TransmitData` in LoRaReplicator.py are serial output. A transmission is modelled as appending the packet to the `wire` sequence. `serialPutchar` would truncate a value to one byte; `RunReplicator` proves every value it sends is already a byte.
- `random`: GetPayload's 26 draws are a parameter `draw` (the value drawn for index i is `draw(i)`), and the meter chosen in each pass is a parameter index into `METER`.
- RunReplicator: `main`'s endless `while True` loop is modelled as a finite number of passes, one per meter choice; the `print(".")` per pass is left out.
- Logging calls, `logging.basicConfig`, the two `print` calls in `clear` (LoRaMonitor.py:163-164), and the Tk widgets are left out: labels, buttons, frames and `pack`.
- The `root.after` timers are left out: `App.Running` is one tick. So is `root.update_idletasks`.
- GetValue's polling of the serial line is left out. Only its "hand over only non-empty reads" guard appears, in `LoopbackInspect`.
- `save` (prints "Not Yet Implemented") and `exit_program` are left out.
- `MAXROWS` is left out: it is an unused tuple `(10, 0)`.
- Listbox text: a row holds the list that `UpdateStream` inserted. Its text is taken to be Python's `str(list)`, `"[a, b, c]"`, the form that `SelectText`'s strip-and-split expects. Tk's own conversion of a list argument into a row is not part of this model.
- The decoded fields hold the slices themselves; how `StringVar.set` renders a list as text is not modelled.
- `selectedposn` starts as the int `0` in the source; the model starts it as the empty selection, the value it holds whenever nothing is selected.
- App.Clear: `self.stream.clear()` empties in place the list object the poller handed over, which the poller's caller may still hold; the model only empties the App's batch (no aliasing).
- The code has no stream reassembly, no per-kind decoding or error checks, no handshake validation, and no timeouts, retries or checksums; none is modelled.
- LoopbackInspect: its `requires Framed(received, …)` covers only a poll that read exactly one packet. `ReadData` returns whatever bytes are buffered, `GetValue` polls every 10 ms, `Running` ticks every 100 ms, `SetStream` overwrites a batch not yet shown, and the replicator sends its packets back to back. So a row may be part of a packet, or pieces of several. Such rows are covered by `DecodeShownRow` and `DecodeList`, which hold for any list.
