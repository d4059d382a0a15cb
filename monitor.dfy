/** The capture and inspection state of LoRaMonitor.py's App, without its Tk
    widgets: a pending batch of received values, a running flag, the listbox rows
    (newest first), the selected row taken apart again, and the four decoded
    fields that the "Detailed View" shows. */
module LoRaMonitor {
  import opened ListText

  /** The four fields of the detailed view, each one slice of the selected list. */
  datatype Decoded<T> = Decoded(sender: seq<T>, receiver: seq<T>, command: seq<T>, payload: seq<T>)

  function Min(a: int, b: int): int { if a <= b then a else b }

  /** Python's `s[i:j]` for non-negative bounds: bounds past the end are
      clamped and a reversed range is empty, so a slice is never an error. */
  function Slice<T>(s: seq<T>, i: nat, j: nat): (r: seq<T>)
    ensures |r| == if Min(j, |s|) <= i then 0 else Min(j, |s|) - i
    ensures forall k :: 0 <= k < |r| ==> r[k] == s[i + k]
  {
    var hi := Min(j, |s|);
    if hi <= i then [] else s[i..hi]
  }

  /** Decode's fixed offsets: [0:5] is shown as the sender, [5:10] as the
      receiver, [10:11] as the command and [11:] as the payload. The four slices
      partition the list, whatever its length. */
  function DecodeList<T>(list: seq<T>): (d: Decoded<T>)
    ensures d.sender + d.receiver + d.command + d.payload == list
    ensures |d.sender| == Min(5, |list|)
    ensures |d.sender| + |d.receiver| == Min(10, |list|)
    ensures |d.sender| + |d.receiver| + |d.command| == Min(11, |list|)
  {
    var d := Decoded(Slice(list, 0, 5), Slice(list, 5, 10), Slice(list, 10, 11), Slice(list, 11, |list|));
    assert d.sender + d.receiver + d.command + d.payload == list by {
      var cat := d.sender + d.receiver + d.command + d.payload;
      assert |cat| == |list|;
      forall k | 0 <= k < |list| ensures cat[k] == list[k] {
        if k < 5 {
        } else if k < 10 {
          assert cat[k] == d.receiver[k - 5];
        } else if k < 11 {
          assert cat[k] == d.command[k - 10];
        } else {
          assert cat[k] == d.payload[k - 11];
        }
      }
    }
    d
  }

  /** The decoded fields of a selected row are the decimal texts of the decoded
      fields of the list that was displayed in it. */
  lemma DecodeShownRow(xs: seq<int>)
    requires xs != []
    ensures var d := DecodeList(xs);
      DecodeList(ParseRow(Show(xs)))
        == Decoded(Decimals(d.sender), Decimals(d.receiver), Decimals(d.command), Decimals(d.payload))
  {
    ParseShow(xs);
    var d := DecodeList(xs);
    var t := DecodeList(Decimals(xs));
    var ds := Decimals(xs);
    assert Decimals(d.sender + d.receiver + d.command + d.payload) == ds;
    DecimalsAppend(d.sender, d.receiver);
    DecimalsAppend(d.sender + d.receiver, d.command);
    DecimalsAppend(d.sender + d.receiver + d.command, d.payload);
    SameSplit(t.sender, t.receiver, t.command, t.payload,
              Decimals(d.sender), Decimals(d.receiver), Decimals(d.command), Decimals(d.payload));
  }

  /** SelectText's strip-then-split of a displayed row, step by step, is the
      row parse, and it reads back the decimal text of the row's items. */
  lemma ParsedRow(row: seq<int>, text: string, list: seq<string>)
    requires text == Strip(Show(row), BRACKETS) && list == Split(text, SEPARATOR)
    ensures list == ParseRow(Show(row))
    ensures row != [] ==> list == Decimals(row)
    ensures row == [] ==> list == [""]
  {
    ParseShow(row);
  }

  lemma DecimalsAppend(a: seq<int>, b: seq<int>)
    ensures Decimals(a + b) == Decimals(a) + Decimals(b)
  {
  }

  /** Two four-way splits of one list with the same part lengths are the same split. */
  lemma SameSplit<T>(a: seq<T>, b: seq<T>, c: seq<T>, d: seq<T>, a': seq<T>, b': seq<T>, c': seq<T>, d': seq<T>)
    requires a + b + c + d == a' + b' + c' + d'
    requires |a| == |a'| && |b| == |b'| && |c| == |c'|
    ensures a == a' && b == b' && c == c' && d == d'
  {
    var s := a + b + c + d;
    assert a == s[..|a|] && a' == s[..|a|];
    assert b == s[|a|..|a| + |b|] && b' == s[|a|..|a| + |b|];
    assert c == s[|a| + |b|..|a| + |b| + |c|] && c' == s[|a| + |b|..|a| + |b| + |c|];
    assert d == s[|a| + |b| + |c|..] && d' == s[|a| + |b| + |c|..];
  }

  class App {
    /** True between Capture and Pause: only then does the timer move data to the rows. */
    var running: bool
    /** The batch of values most recently handed over by the poller, not yet displayed. */
    var stream: seq<int>
    /** The listbox rows, newest first; each row shows one batch as "[a, b, c]". */
    var rows: seq<seq<int>>
    var selectedText: string
    var selectedList: seq<string>
    /** The listbox's current selection: no index, or one (single-select mode). */
    var selectedPosn: seq<nat>
    var decodeSender: seq<string>
    var decodeReceiver: seq<string>
    var decodeCommand: seq<string>
    var decodePayload: seq<string>

    /** The four decoded fields as the detailed view shows them. */
    function DecodedView(): Decoded<string>
      reads this
    {
      Decoded(decodeSender, decodeReceiver, decodeCommand, decodePayload)
    }

    constructor ()
      ensures !running && stream == [] && rows == []
      ensures selectedText == "" && selectedList == [] && selectedPosn == []
      ensures DecodedView() == Decoded([], [], [], [])
    {
      running := false;
      stream := [];
      rows := [];
      selectedText := "";
      selectedList := [];
      selectedPosn := [];
      decodeSender, decodeReceiver, decodeCommand, decodePayload := [], [], [], [];
    }

    /** One tick of the 100 ms timer: rows are updated only while capturing. */
    method Running()
      modifies this`stream, this`rows
      ensures old(running) && old(stream) != [] ==> rows == [old(stream)] + old(rows) && stream == []
      ensures old(running) && old(stream) == [] ==> rows == old(rows) && stream == []
      ensures !old(running) ==> rows == old(rows) && stream == old(stream)
    {
      if running {
        UpdateStream();
      }
    }

    /** Replaces the pending batch; an earlier batch not yet displayed is lost. */
    method SetStream(newText: seq<int>)
      modifies this`stream
      ensures stream == newText
    {
      stream := newText;
    }

    /** Moves a non-empty pending batch to the top row and empties the batch. */
    method UpdateStream()
      modifies this`stream, this`rows
      ensures stream == []
      ensures rows == if old(stream) == [] then old(rows) else [old(stream)] + old(rows)
    {
      if |stream| > 0 {
        rows := [stream] + rows;
        stream := [];
      }
    }

    /** A click on the listbox. With no selection nothing but the selection is
        recorded; otherwise the selected row's text is stripped of its brackets,
        split on ", " and decoded. */
    method SelectText(selection: seq<nat>)
      requires |selection| <= 1
      requires forall k :: 0 <= k < |selection| ==> selection[k] < |rows|
      modifies this`selectedPosn, this`selectedText, this`selectedList
      modifies this`decodeSender, this`decodeReceiver, this`decodeCommand, this`decodePayload
      ensures selectedPosn == selection
      ensures selection == [] ==>
        selectedText == old(selectedText) && selectedList == old(selectedList) && DecodedView() == old(DecodedView())
      ensures selection != [] ==>
        && selectedText == Strip(Show(rows[selection[0]]), BRACKETS)
        && selectedList == ParseRow(Show(rows[selection[0]]))
        && DecodedView() == DecodeList(selectedList)
      ensures selection != [] && rows[selection[0]] != [] ==> selectedList == Decimals(rows[selection[0]])
      ensures selection != [] && rows[selection[0]] == [] ==> selectedList == [""]
    {
      selectedPosn := selection;
      if |selectedPosn| == 0 {
        return;
      }
      var row := rows[selection[0]];
      selectedText := Show(row);
      selectedText := Strip(selectedText, BRACKETS);
      selectedList := Split(selectedText, SEPARATOR);
      Decode();
      ParsedRow(rows[selection[0]], selectedText, selectedList);
    }

    /** Fills the four decoded fields from the selected list's fixed offsets. */
    method Decode()
      modifies this`decodeSender, this`decodeReceiver, this`decodeCommand, this`decodePayload
      ensures DecodedView() == DecodeList(selectedList)
    {
      decodeSender := Slice(selectedList, 0, 5);
      decodeReceiver := Slice(selectedList, 5, 10);
      decodeCommand := Slice(selectedList, 10, 11);
      decodePayload := Slice(selectedList, 11, |selectedList|);
    }

    method Capture()
      modifies this`running
      ensures running
    {
      running := true;
    }

    method Pause()
      modifies this`running
      ensures !running
    {
      running := false;
    }

    /** Empties the pending batch and the listbox. */
    method Clear()
      modifies this`stream, this`rows
      ensures stream == [] && rows == []
    {
      stream := [];
      rows := [];
    }
  }
}
