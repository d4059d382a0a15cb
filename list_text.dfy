/** The text form of a Python list of ints, as the monitor's listbox rows hold it
    ("[0, 254, 49]"), and the two string operations the monitor uses to take such
    a row apart again: `str.strip(chars)` and `str.split(sep)`. */
module ListText {

  /** The separator Python puts between the items of a printed list. */
  const SEPARATOR: string := ", "

  /** The characters the monitor strips from both ends of a selected row. */
  const BRACKETS: set<char> := {'[', ']'}

  predicate IsDigit(c: char) { '0' <= c <= '9' }

  /** The value of a decimal digit character. */
  function DigitValue(c: char): int
  {
    c as int - '0' as int
  }

  function DigitChar(d: int): (c: char)
    requires 0 <= d < 10
    ensures IsDigit(c) && DigitValue(c) == d
  {
    ('0' as int + d) as char
  }

  /** Python's `str(n)` for a non-negative int: its decimal digits, most significant first. */
  function NatDecimal(n: nat): (s: string)
    ensures |s| > 0
    ensures forall i :: 0 <= i < |s| ==> IsDigit(s[i])
    decreases n
  {
    if n < 10 then [DigitChar(n)] else NatDecimal(n / 10) + [DigitChar(n % 10)]
  }

  /** Python's `str(x)` for any int: a minus sign for negative values, then the digits. */
  function IntDecimal(x: int): (s: string)
    ensures |s| > 0 && IsDigit(s[|s| - 1])
    ensures forall i :: 0 <= i < |s| ==> s[i] == '-' || IsDigit(s[i])
  {
    if x < 0 then "-" + NatDecimal(-x) else NatDecimal(x)
  }

  /** The number a string of decimal digits denotes (Python's `int(s)` on digits). */
  function NatValue(s: string): int
  {
    if s == [] then 0 else NatValue(s[..|s| - 1]) * 10 + DigitValue(s[|s| - 1])
  }

  /** The number an optionally signed decimal text denotes. */
  function IntValue(s: string): int
  {
    if |s| > 0 && s[0] == '-' then -NatValue(s[1..]) else NatValue(s)
  }

  /** The digits NatDecimal writes read back as the number they were written for. */
  lemma {:induction false} NatDecimalValue(n: nat)
    ensures NatValue(NatDecimal(n)) == n
    decreases n
  {
    if n >= 10 {
      NatDecimalValue(n / 10);
      var s := NatDecimal(n);
      assert s[..|s| - 1] == NatDecimal(n / 10);
    }
  }

  /** Each item's text in a displayed row reads back as the item. */
  lemma IntDecimalValue(x: int)
    ensures IntValue(IntDecimal(x)) == x
  {
    if x < 0 {
      NatDecimalValue(-x);
      assert IntDecimal(x)[1..] == NatDecimal(-x);
    } else {
      NatDecimalValue(x);
    }
  }

  /** The decimal text of every item of a list. */
  function Decimals(xs: seq<int>): (ds: seq<string>)
    ensures |ds| == |xs|
    ensures forall i :: 0 <= i < |xs| ==> ds[i] == IntDecimal(xs[i])
  {
    seq(|xs|, i requires 0 <= i < |xs| => IntDecimal(xs[i]))
  }

  /** Python's `sep.join(parts)`; JoinFirst and JoinLast state its two ends. */
  function Join(parts: seq<string>, sep: string): string
  {
    if |parts| == 0 then ""
    else if |parts| == 1 then parts[0]
    else parts[0] + sep + Join(parts[1..], sep)
  }

  /** A join starts with its first part. */
  lemma JoinFirst(parts: seq<string>, sep: string)
    requires |parts| > 0
    ensures parts[0] <= Join(parts, sep)
  {
  }

  /** A join ends with its last part. */
  lemma {:induction false} JoinLast(parts: seq<string>, sep: string)
    requires |parts| > 0
    ensures var j := Join(parts, sep); var last := parts[|parts| - 1];
      |last| <= |j| && j[|j| - |last|..] == last
    decreases |parts|
  {
    if |parts| > 1 {
      JoinLast(parts[1..], sep);
      assert parts[1..][|parts| - 2] == parts[|parts| - 1];
    }
  }

  /** Python's `str(xs)` for a list of ints: bracketed, and "[]" only for the empty list. */
  function Show(xs: seq<int>): (t: string)
    ensures |t| >= 2 && t[0] == '[' && t[|t| - 1] == ']'
    ensures |t| == 2 <==> xs == []
  {
    "[" + Join(Decimals(xs), SEPARATOR) + "]"
  }

  /** Python's `s.lstrip(chars)`: drops the longest prefix made only of `chars`. */
  function StripLeading(s: string, chars: set<char>): (r: string)
    ensures |r| <= |s| && r == s[|s| - |r|..]
    ensures forall k :: 0 <= k < |s| - |r| ==> s[k] in chars
    ensures r == [] || r[0] !in chars
  {
    if |s| > 0 && s[0] in chars then StripLeading(s[1..], chars) else s
  }

  /** Python's `s.rstrip(chars)`: drops the longest suffix made only of `chars`. */
  function StripTrailing(s: string, chars: set<char>): (r: string)
    ensures |r| <= |s| && r == s[..|r|]
    ensures forall k :: |r| <= k < |s| ==> s[k] in chars
    ensures r == [] || r[|r| - 1] !in chars
  {
    if |s| > 0 && s[|s| - 1] in chars then StripTrailing(s[..|s| - 1], chars) else s
  }

  /** Python's `s.strip(chars)`: neither end of the result is one of `chars`. */
  function Strip(s: string, chars: set<char>): (r: string)
    ensures |r| <= |s|
    ensures r == [] || (r[0] !in chars && r[|r| - 1] !in chars)
  {
    StripTrailing(StripLeading(s, chars), chars)
  }

  /** A string with none of `chars` is kept whole; one made only of them vanishes. */
  lemma StripExtremes(s: string, chars: set<char>)
    ensures (forall k :: 0 <= k < |s| ==> s[k] !in chars) ==> Strip(s, chars) == s
    ensures (forall k :: 0 <= k < |s| ==> s[k] in chars) ==> Strip(s, chars) == []
  {
  }

  /** Python's `s.split(sep)` for a non-empty separator: the pieces between the
      occurrences of `sep`, found left to right; an empty string yields `[""]`. */
  function Split(s: string, sep: string): (parts: seq<string>)
    requires sep != ""
    ensures |parts| > 0
    decreases |s|
  {
    if |s| < |sep| then [s]
    else if s[..|sep|] == sep then [""] + Split(s[|sep|..], sep)
    else
      var rest := Split(s[1..], sep);
      [[s[0]] + rest[0]] + rest[1..]
  }

  /** No piece of a split holds the separator: every occurrence was cut out.
      The first piece is where the string starts. */
  lemma {:induction false} SplitPieces(s: string, sep: string)
    requires sep != ""
    ensures Split(s, sep)[0] <= s
    ensures forall i :: 0 <= i < |Split(s, sep)| ==> !Contains(Split(s, sep)[i], sep)
    decreases |s|
  {
    if |s| < |sep| {
    } else if s[..|sep|] == sep {
      SplitPieces(s[|sep|..], sep);
    } else {
      SplitPieces(s[1..], sep);
      var rest := Split(s[1..], sep);
      var first := [s[0]] + rest[0];
      assert first == s[..|first|];
      assert first[1..] == rest[0];
      assert |first| >= |sep| ==> first[..|sep|] == s[..|sep|];
      assert !Contains(first, sep);
    }
  }

  /** `sep in t`: `t` starts with `sep`, or its tail contains it. */
  predicate Contains(t: string, sep: string)
    decreases |t|
  {
    |t| >= |sep| && (t[..|sep|] == sep || (|t| > 0 && Contains(t[1..], sep)))
  }

  /** The parse `SelectText` applies to a row's text: strip the brackets, split on ", ".
      There is always at least one piece, and no piece holds the separator. */
  function ParseRow(text: string): (items: seq<string>)
    ensures |items| > 0
    ensures forall i :: 0 <= i < |items| ==> !Contains(items[i], SEPARATOR)
  {
    SplitPieces(Strip(text, BRACKETS), SEPARATOR);
    Split(Strip(text, BRACKETS), SEPARATOR)
  }

  /** Splitting and joining again gives back the string: no character is lost or added. */
  lemma {:induction false} JoinSplit(s: string, sep: string)
    requires sep != ""
    ensures Join(Split(s, sep), sep) == s
    decreases |s|
  {
    if |s| < |sep| {
    } else if s[..|sep|] == sep {
      var tail := s[|sep|..];
      JoinSplit(tail, sep);
      JoinAfterEmpty(Split(tail, sep), sep);
      assert s == sep + tail;
    } else {
      var tail := s[1..];
      JoinSplit(tail, sep);
      JoinExtendFirst(s[0], Split(tail, sep), sep);
      assert s == [s[0]] + tail;
    }
  }

  /** An empty first part contributes only the separator that follows it. */
  lemma JoinAfterEmpty(rest: seq<string>, sep: string)
    requires |rest| > 0
    ensures Join([""] + rest, sep) == sep + Join(rest, sep)
  {
    assert ([""] + rest)[1..] == rest;
  }

  /** A character put in front of the first part comes out in front of the join. */
  lemma JoinExtendFirst(c: char, rest: seq<string>, sep: string)
    requires |rest| > 0
    ensures Join([[c] + rest[0]] + rest[1..], sep) == [c] + Join(rest, sep)
  {
    var parts := [[c] + rest[0]] + rest[1..];
    assert parts[1..] == rest[1..];
    if |rest| > 1 {
      assert Join(rest, sep) == rest[0] + sep + Join(rest[1..], sep);
    }
  }

  /** Splitting a string whose first piece holds no character that starts the
      separator peels that piece off in front of the split of the rest. */
  lemma {:induction false} SplitPrefix(item: string, rest: string, sep: string)
    requires sep != ""
    requires forall k :: 0 <= k < |item| ==> item[k] != sep[0]
    ensures Split(item + rest, sep) == [item + Split(rest, sep)[0]] + Split(rest, sep)[1..]
    decreases |item|
  {
    var s := item + rest;
    var r := Split(rest, sep);
    if item == [] {
      assert s == rest;
      assert item + r[0] == r[0];
      assert [r[0]] + r[1..] == r;
    } else if |s| < |sep| {
      assert r == [rest];
    } else {
      assert s[..|sep|] != sep by {
        assert s[0] == item[0] && item[0] != sep[0];
        assert s[..|sep|][0] == s[0];
      }
      assert s[1..] == item[1..] + rest by { SuffixOfAppend(item, rest); }
      SplitPrefix(item[1..], rest, sep);
      assert [s[0]] + (item[1..] + r[0]) == item + r[0];
    }
  }

  lemma SuffixOfAppend(item: string, rest: string)
    requires item != []
    ensures (item + rest)[1..] == item[1..] + rest
  {
  }

  /** Joining pieces free of the separator's first character and splitting again
      gives back exactly those pieces. */
  lemma {:induction false} SplitJoin(items: seq<string>, sep: string)
    requires sep != "" && |items| > 0
    requires forall i, k :: 0 <= i < |items| && 0 <= k < |items[i]| ==> items[i][k] != sep[0]
    ensures Split(Join(items, sep), sep) == items
    decreases |items|
  {
    if |items| == 1 {
      SplitPrefix(items[0], "", sep);
      assert items[0] + "" == items[0];
    } else {
      var tail := Join(items[1..], sep);
      SplitJoin(items[1..], sep);
      assert (sep + tail)[..|sep|] == sep;
      assert (sep + tail)[|sep|..] == tail;
      assert Split(sep + tail, sep) == [""] + items[1..];
      SplitPrefix(items[0], sep + tail, sep);
      assert items[0] + (sep + tail) == Join(items, sep);
      assert items[0] + "" == items[0];
      assert ([""] + items[1..])[1..] == items[1..];
      assert [items[0]] + items[1..] == items;
    }
  }

  /** Reading a displayed list back: the row's text parses into the decimal text of
      each item, and the empty list parses into one empty string. */
  lemma ParseShow(xs: seq<int>)
    ensures ParseRow(Show(xs)) == if xs == [] then [""] else Decimals(xs)
  {
    var items := Decimals(xs);
    var joined := Join(items, SEPARATOR);
    assert Show(xs) == "[" + joined + "]";
    if xs == [] {
      StripBracketed(joined);
    } else {
      forall i | 0 <= i < |items|
        ensures |items[i]| > 0 && IsDigit(items[i][|items[i]| - 1])
        ensures IsDigit(items[i][0]) || items[i][0] == '-'
        ensures forall k :: 0 <= k < |items[i]| ==> items[i][k] != SEPARATOR[0]
      {
        assert items[i] == IntDecimal(xs[i]);
      }
      JoinEnds(items, SEPARATOR);
      StripBracketed(joined);
      SplitJoin(items, SEPARATOR);
    }
  }

  /** Stripping the brackets off "[" + body + "]" leaves the body, when the body
      neither starts nor ends with a bracket. */
  lemma StripBracketed(body: string)
    requires body == [] || (body[0] !in BRACKETS && body[|body| - 1] !in BRACKETS)
    ensures Strip("[" + body + "]", BRACKETS) == body
  {
    var text := "[" + body + "]";
    assert text[1..] == body + "]";
    if body == [] {
      assert StripLeading("]", BRACKETS) == "";
    } else {
      assert StripLeading(text, BRACKETS) == body + "]";
      assert (body + "]")[..|body|] == body;
    }
  }

  /** A join of decimal texts starts with a digit or '-' and ends with a digit. */
  lemma JoinEnds(items: seq<string>, sep: string)
    requires |items| > 0
    requires forall i :: 0 <= i < |items| ==> |items[i]| > 0 && IsDigit(items[i][|items[i]| - 1])
    requires forall i :: 0 <= i < |items| ==> IsDigit(items[i][0]) || items[i][0] == '-'
    ensures var j := Join(items, sep); |j| > 0 && j[0] == items[0][0] && IsDigit(j[|j| - 1])
  {
    var j := Join(items, sep);
    var last := items[|items| - 1];
    JoinFirst(items, sep);
    JoinLast(items, sep);
    assert j[0] == items[0][0];
    assert j[|j| - 1] == j[|j| - |last|..][|last| - 1] == last[|last| - 1];
  }
}
