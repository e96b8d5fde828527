/**
 The text form of message data in files: two lower-case hexadecimal digits for every byte,
 separated by blanks. Reading is more tolerant than writing.
 */
module HexData {
  import opened Bytes

  const DIGITS: string := "0123456789abcdef"

  function DigitChar(d: nat): char
    requires d < 16
  {
    DIGITS[d]
  }

  predicate IsHexDigit(c: char) {
    '0' <= c <= '9' || 'A' <= c <= 'F' || 'a' <= c <= 'f'
  }

  ghost predicate AllHex(text: string) {
    forall i :: 0 <= i < |text| ==> IsHexDigit(text[i])
  }

  function DigitValue(c: char): (d: nat)
    requires IsHexDigit(c)
    ensures d < 16
  {
    if '0' <= c <= '9' then (c - '0') as nat
    else if 'A' <= c <= 'F' then (c - 'A') as nat + 10
    else (c - 'a') as nat + 10
  }

  function ByteText(b: byte): (text: string)
    ensures |text| == 2
  {
    [DigitChar(b as nat / 16), DigitChar(b as nat % 16)]
  }

  lemma DigitRoundTrip(d: nat)
    requires d < 16
    ensures IsHexDigit(DigitChar(d)) && DigitValue(DigitChar(d)) == d
  {}

  // ---- Writing ------------------------------------------------------------------------

  /** The text of the data: blanks only between the bytes. */
  function Printed(data: seq<byte>): string {
    if data == [] then ""
    else if |data| == 1 then ByteText(data[0])
    else Printed(data[..|data| - 1]) + " " + ByteText(data[|data| - 1])
  }

  /** Two digits for every byte, and one blank between any two bytes. */
  lemma {:induction false} PrintedLayout(data: seq<byte>, k: nat)
    requires k < |data|
    ensures |Printed(data)| == 3 * |data| - 1
    ensures Printed(data)[3 * k..3 * k + 2] == ByteText(data[k])
    ensures k + 1 < |data| ==> Printed(data)[3 * k + 2] == ' '
  {
    hide ByteText;
    var last := |data| - 1;
    if last > 0 {
      PrintedLayout(data[..last], if k < last then k else 0);
    }
  }

  lemma PrintedNotEmpty(data: seq<byte>)
    ensures Printed(data) == "" <==> data == []
  {}

  method EncodeMsgData(data: seq<byte>) returns (text: string)
    ensures text == Printed(data)
  {
    text := "";
    for k := 0 to |data|
      invariant text == Printed(data[..k])
    {
      PrintedNotEmpty(data[..k]);
      assert data[..k + 1][..k] == data[..k];
      if text != "" {
        text := text + " ";
      }
      text := text + ByteText(data[k]);
    }
    assert data[..|data|] == data;
  }

  // ---- Reading ------------------------------------------------------------------------

  /** Everything but hexadecimal digits is ignored. */
  function Stripped(text: string): (digits: string)
    ensures AllHex(digits)
  {
    if text == "" then ""
    else (if IsHexDigit(text[0]) then [text[0]] else "") + Stripped(text[1..])
  }

  /** An odd number of digits is completed in front. */
  function Padded(digits: string): (padded: string)
    requires AllHex(digits)
    ensures |padded| % 2 == 0
    ensures AllHex(padded)
  {
    if |digits| % 2 != 0 then "0" + digits else digits
  }

  function Paired(digits: string): (data: seq<byte>)
    requires |digits| % 2 == 0
    requires AllHex(digits)
    ensures |data| == |digits| / 2
  {
    if digits == "" then []
    else [(16 * DigitValue(digits[0]) + DigitValue(digits[1])) as byte] + Paired(digits[2..])
  }

  function Parsed(text: string): seq<byte> {
    Paired(Padded(Stripped(text)))
  }

  lemma PairedFirst(digits: string)
    requires |digits| % 2 == 0 && digits != "" && AllHex(digits)
    ensures AllHex(digits[2..])
    ensures Paired(digits) == [(16 * DigitValue(digits[0]) + DigitValue(digits[1])) as byte] + Paired(digits[2..])
  {
    hide DigitValue, IsHexDigit;
  }

  lemma {:induction false} PairedConcat(first: string, second: string)
    requires |first| % 2 == 0 && |second| % 2 == 0
    requires AllHex(first) && AllHex(second)
    ensures Paired(first + second) == Paired(first) + Paired(second)
  {
    hide Paired, DigitValue, IsHexDigit;
    if first == "" {
      PrintNothing();
      assert first + second == second;
    } else {
      PairedFirst(first);
      PairedFirst(first + second);
      PairedConcat(first[2..], second);
      assert (first + second)[2..] == first[2..] + second;
    }
  }

  method ParseMsgData(text: string) returns (data: seq<byte>)
    ensures data == Parsed(text)
  {
    var stripped := StripData(text);
    if |stripped| % 2 != 0 {
      stripped := "0" + stripped;
    }
    data := PairDigits(stripped);
  }

  /** The loop over the digits: every second digit completes a byte. */
  method PairDigits(digits: string) returns (data: seq<byte>)
    requires |digits| % 2 == 0 && AllHex(digits)
    ensures data == Paired(digits)
  {
    data := [];
    var num := "";
    hide Paired, DigitValue, IsHexDigit;
    PrintNothing();
    assert digits[..0] == "";
    for k := 0 to |digits|
      invariant |num| == k % 2
      invariant |num| == 1 ==> num[0] == digits[k - 1]
      invariant data == Paired(digits[..k - |num|])
    {
      num := num + [digits[k]];
      if |num| == 2 {
        PairedOneMore(digits[..k - 1], num);
        assert digits[..k + 1] == digits[..k - 1] + num;
        data := data + [(16 * DigitValue(num[0]) + DigitValue(num[1])) as byte];
        num := "";
      }
    }
    assert digits[..|digits|] == digits;
  }

  lemma {:induction false} PairedOneMore(digits: string, num: string)
    requires |digits| % 2 == 0 && |num| == 2
    requires AllHex(digits) && IsHexDigit(num[0]) && IsHexDigit(num[1])
    ensures Paired(digits + num) == Paired(digits) + [(16 * DigitValue(num[0]) + DigitValue(num[1])) as byte]
  {
    PairedConcat(digits, num);
    assert num[2..] == "";
  }

  method StripData(text: string) returns (digits: string)
    ensures digits == Stripped(text)
  {
    digits := "";
    for k := 0 to |text|
      invariant digits == Stripped(text[..k])
    {
      if IsHexDigit(text[k]) {
        digits := digits + [text[k]];
      }
      assert text[..k + 1] == text[..k] + [text[k]];
      StrippedConcat(text[..k], [text[k]]);
    }
    assert text[..|text|] == text;
  }

  lemma {:induction false} StrippedConcat(first: string, second: string)
    ensures Stripped(first + second) == Stripped(first) + Stripped(second)
  {
    hide IsHexDigit;
    if first == "" {
      assert first + second == second;
    } else {
      var front := if IsHexDigit(first[0]) then [first[0]] else "";
      assert (first + second)[1..] == first[1..] + second;
      StrippedConcat(first[1..], second);
      assert front + (Stripped(first[1..]) + Stripped(second)) == Stripped(first) + Stripped(second);
    }
  }

  // ---- Digits of other scripts ---------------------------------------------------------------

  /** What is kept of a text when digits of every script count as digits, as they do in the code. */
  function Kept(text: string, isDigit: char -> bool): string {
    if text == "" then ""
    else
      var c := text[0];
      (if isDigit(c) || 'A' <= c <= 'F' || 'a' <= c <= 'f' then [c] else "") + Kept(text[1..], isDigit)
  }

  ghost predicate NoOtherDigits(text: string, isDigit: char -> bool) {
    forall i :: 0 <= i < |text| && isDigit(text[i]) ==> IsHexDigit(text[i])
  }

  lemma NoOtherDigitsFirst(text: string, isDigit: char -> bool)
    requires text != ""
    ensures NoOtherDigits(text, isDigit) <==>
            (isDigit(text[0]) ==> IsHexDigit(text[0])) && NoOtherDigits(text[1..], isDigit)
  {
    hide IsHexDigit;
    assert forall i :: 0 < i < |text| ==> text[i] == text[1..][i - 1];
  }

  /** The conversion of what is kept succeeds exactly if the text has no digits but the usual ones;
      then what is kept are its hexadecimal digits. */
  lemma {:induction false} KeptExactly(text: string, isDigit: char -> bool)
    requires forall c :: '0' <= c <= '9' ==> isDigit(c)
    ensures AllHex(Kept(text, isDigit)) <==> NoOtherDigits(text, isDigit)
    ensures AllHex(Kept(text, isDigit)) ==> Kept(text, isDigit) == Stripped(text)
  {
    if text != "" {
      KeptExactly(text[1..], isDigit);
      var kept, rest, c := Kept(text, isDigit), Kept(text[1..], isDigit), text[0];
      NoOtherDigitsFirst(text, isDigit);
      if isDigit(c) || 'A' <= c <= 'F' || 'a' <= c <= 'f' {
        assert kept == [c] + rest && kept[0] == c && kept[1..] == rest;
      } else {
        assert kept == "" + rest == rest;
      }
    }
  }

  // ---- The value of the text -----------------------------------------------------------------

  /** The digits read as one number to the base 16. */
  function DigitsNumber(digits: string): nat
    requires AllHex(digits)
  {
    if digits == "" then 0
    else 16 * DigitsNumber(digits[..|digits| - 1]) + DigitValue(digits[|digits| - 1])
  }

  /** The bytes read as one number to the base 256. */
  function BytesNumber(data: seq<byte>): nat {
    if data == [] then 0
    else 256 * BytesNumber(data[..|data| - 1]) + data[|data| - 1] as nat
  }

  lemma {:induction false} ZeroInFront(digits: string)
    requires AllHex(digits)
    ensures DigitsNumber("0" + digits) == DigitsNumber(digits)
  {
    var text := "0" + digits;
    if digits == "" {
      assert text[..0] == "";
    } else {
      ZeroInFront(digits[..|digits| - 1]);
      assert text[..|text| - 1] == "0" + digits[..|digits| - 1];
    }
  }

  lemma {:induction false} PairedNumber(digits: string)
    requires |digits| % 2 == 0 && AllHex(digits)
    ensures BytesNumber(Paired(digits)) == DigitsNumber(digits)
  {
    if digits != "" {
      var front, c, d := digits[..|digits| - 2], digits[|digits| - 2], digits[|digits| - 1];
      PairedNumber(front);
      PairedOneMore(front, [c, d]);
      assert digits == front + [c, d];
      hide Paired, DigitValue, IsHexDigit;
      assert digits[..|digits| - 1] == front + [c] && (front + [c])[..|front|] == front;
      var data := Paired(digits);
      assert data[..|data| - 1] == Paired(front);
    }
  }

  /** Whatever the text, odd digit counts included, the bytes that are read are as many as needed for
      its digits, and mean the same number. */
  lemma ParsedNumber(text: string)
    ensures |Parsed(text)| == (|Stripped(text)| + 1) / 2
    ensures BytesNumber(Parsed(text)) == DigitsNumber(Stripped(text))
  {
    ZeroInFront(Stripped(text));
    PairedNumber(Padded(Stripped(text)));
  }

  // ---- Round trips ------------------------------------------------------------------------

  lemma {:induction false} StrippedByte(b: byte)
    ensures Stripped(ByteText(b)) == ByteText(b)
    ensures AllHex(ByteText(b))
    ensures Paired(ByteText(b)) == [b]
  {
    var hi, lo := b as nat / 16, b as nat % 16;
    DigitRoundTrip(hi);
    DigitRoundTrip(lo);
    hide DigitChar, DigitValue, IsHexDigit;
    StrippedPair(DigitChar(hi), DigitChar(lo));
    PairedPair(DigitChar(hi), DigitChar(lo));
    assert 16 * hi + lo == b as nat;
  }

  lemma StrippedPair(c: char, d: char)
    requires IsHexDigit(c) && IsHexDigit(d)
    ensures Stripped([c, d]) == [c, d]
  {
    hide IsHexDigit;
    assert [c, d][1..] == [d] && [d][1..] == "";
    assert Stripped([d]) == [d] + Stripped("");
  }

  lemma PairedPair(c: char, d: char)
    requires IsHexDigit(c) && IsHexDigit(d)
    ensures Paired([c, d]) == [(16 * DigitValue(c) + DigitValue(d)) as byte]
  {
    hide IsHexDigit, DigitValue;
    assert [c, d][2..] == "";
  }

  /** The digits in the written form, one byte more at a time. */
  lemma PrintedOneMore(data: seq<byte>, b: byte)
    ensures Stripped(Printed(data + [b])) == Stripped(Printed(data)) + ByteText(b)
  {
    StrippedByte(b);
    hide ByteText;
    assert (data + [b])[..|data|] == data;
    if data != [] {
      StrippedConcat(Printed(data) + " ", ByteText(b));
      StrippedConcat(Printed(data), " ");
      assert " "[1..] == "";
    }
  }

  lemma {:induction false} PrintedDigits(data: seq<byte>)
    ensures |Stripped(Printed(data))| % 2 == 0
    ensures Paired(Stripped(Printed(data))) == data
  {
    if data != [] {
      var front, last := data[..|data| - 1], data[|data| - 1];
      assert data == front + [last];
      hide Printed, Stripped, ByteText, Paired, IsHexDigit;
      PrintedDigits(front);
      PrintedOneMore(front, last);
      StrippedByte(last);
      PairedConcat(Stripped(Printed(front)), ByteText(last));
    }
  }

  /** Reading the written form gives the data back. */
  lemma {:induction false} ParsePrinted(data: seq<byte>)
    ensures Parsed(Printed(data)) == data
  {
    PrintedDigits(data);
  }

  function Lower(c: char): char {
    if 'A' <= c <= 'F' then c - 'A' + 'a' else c
  }

  function Lowered(text: string): string {
    seq(|text|, i requires 0 <= i < |text| => Lower(text[i]))
  }

  lemma LowerDigit(c: char)
    requires IsHexDigit(c)
    ensures DigitChar(DigitValue(c)) == Lower(c)
  {}

  lemma ByteOfDigits(hi: nat, lo: nat)
    requires hi < 16 && lo < 16
    ensures ByteText((16 * hi + lo) as byte) == [DigitChar(hi), DigitChar(lo)]
  {
    hide DigitChar;
    assert (16 * hi + lo) / 16 == hi && (16 * hi + lo) % 16 == lo;
  }

  /** Writing what was read is a normal form of the text: its digits, completed to an even
      number, in lower case. */
  lemma PrintParsed(text: string)
    ensures Stripped(Printed(Parsed(text))) == Lowered(Padded(Stripped(text)))
  {
    PrintPaired(Padded(Stripped(text)));
  }

  lemma {:induction false} PrintPaired(digits: string)
    requires |digits| % 2 == 0
    requires AllHex(digits)
    ensures Stripped(Printed(Paired(digits))) == Lowered(digits)
  {
    hide Printed, Stripped, Paired, IsHexDigit, DigitValue, DigitChar, Lower, ByteText;
    if digits == "" {
      PrintNothing();
    } else {
      var front, num := digits[..|digits| - 2], digits[|digits| - 2..];
      assert digits == front + num;
      LowerDigit(num[0]);
      LowerDigit(num[1]);
      var hi, lo := DigitValue(num[0]), DigitValue(num[1]);
      PrintPaired(front);
      PairedOneMore(front, num);
      PrintedOneMore(Paired(front), (16 * hi + lo) as byte);
      ByteOfDigits(hi, lo);
      assert Lowered(digits) == Lowered(front) + [Lower(num[0]), Lower(num[1])];
    }
  }

  lemma PrintNothing()
    ensures Stripped(Printed(Paired(""))) == ""
    ensures Paired("") == []
  {}
}
