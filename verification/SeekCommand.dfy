/** The textual seek command that the server recognises. */
module SeekCommand {
  import opened Bytes

  /** "AESDCHAR_IOCSEEKTO:" */
  const PREFIX: seq<byte> := [65, 69, 83, 68, 67, 72, 65, 82, 95, 73, 79, 67, 83, 69, 69, 75, 84, 79, 58]
  const COMMA: byte := 44
  const MINUS: byte := 45
  const PLUS: byte := 43

  /** A message is data, or a seek request, or a request without a comma, for which
      the program dereferences an invalid pointer. */
  datatype Parsed = Data | Seek(writeCmd: nat, writeCmdOffset: nat) | Malformed

  predicate IsSpace(b: byte) {
    b == 32 || 9 <= b <= 13
  }

  predicate IsDigit(b: byte) {
    48 <= b <= 57
  }

  /** The digits that follow, read in base ten after `acc`. */
  function DigitsValue(s: seq<byte>, acc: nat): nat {
    if s == [] || !IsDigit(s[0]) then acc
    else DigitsValue(s[1..], acc * 10 + (s[0] - 48) as nat)
  }

  /** atoi: white space, an optional sign, digits. */
  function Atoi(s: seq<byte>): int {
    if s != [] && IsSpace(s[0]) then Atoi(s[1..])
    else if s != [] && s[0] == MINUS then 0 - DigitsValue(s[1..], 0)
    else if s != [] && s[0] == PLUS then DigitsValue(s[1..], 0)
    else DigitsValue(s, 0)
  }

  /** strchr, as what follows the first comma. */
  function AfterComma(s: seq<byte>): Option<seq<byte>> {
    if s == [] then None
    else if s[0] == COMMA then Some(s[1..])
    else AfterComma(s[1..])
  }

  /** Conversion of an int to a 32-bit unsigned field. */
  function ToUint32(x: int): (r: nat)
    ensures r < 0x1_0000_0000 && (x - r) % 0x1_0000_0000 == 0
    ensures 0 <= x < 0x1_0000_0000 ==> r == x
  {
    x % 0x1_0000_0000
  }

  function Parse(msg: seq<byte>): Parsed {
    if !(PREFIX <= msg) then Data
    else
      var text := msg[|PREFIX|..];
      match AfterComma(text)
      case None => Malformed
      case Some(rest) => Seek(ToUint32(Atoi(text)), ToUint32(Atoi(rest)))
  }

  /** Decimal notation. */
  function Decimal(n: nat): (r: seq<byte>)
    ensures |r| > 0 && forall i :: 0 <= i < |r| ==> IsDigit(r[i])
  {
    if n < 10 then [48 + n as byte] else Decimal(n / 10) + [48 + (n % 10) as byte]
  }

  lemma {:induction false} DecimalValue(n: nat, rest: seq<byte>)
    ensures DigitsValue(Decimal(n) + rest, 0) == DigitsValue(rest, n)
  {
    if n < 10 {
      assert (Decimal(n) + rest)[1..] == rest;
    } else {
      var d: byte := 48 + (n % 10) as byte;
      assert Decimal(n) + rest == Decimal(n / 10) + ([d] + rest);
      DecimalValue(n / 10, [d] + rest);
      assert ([d] + rest)[1..] == rest;
    }
  }

  lemma AtoiDecimal(n: nat, rest: seq<byte>)
    requires rest == [] || !IsDigit(rest[0])
    ensures Atoi(Decimal(n) + rest) == n
  {
    assert (Decimal(n) + rest)[0] == Decimal(n)[0];
    DecimalValue(n, rest);
  }

  /** White space before the number is skipped, and a sign is heeded. */
  lemma {:induction false} AtoiSigned(spaces: seq<byte>, sign: byte, n: nat, rest: seq<byte>)
    requires forall i :: 0 <= i < |spaces| ==> IsSpace(spaces[i])
    requires (sign == PLUS || sign == MINUS) && (rest == [] || !IsDigit(rest[0]))
    ensures Atoi(spaces + ([sign] + (Decimal(n) + rest))) == if sign == MINUS then -(n as int) else n
  {
    var text := [sign] + (Decimal(n) + rest);
    if spaces == [] {
      assert spaces + text == text && text[0] == sign && text[1..] == Decimal(n) + rest;
      DecimalValue(n, rest);
    } else {
      assert (spaces + text)[0] == spaces[0] && (spaces + text)[1..] == spaces[1..] + text;
      AtoiSigned(spaces[1..], sign, n, rest);
    }
  }

  lemma {:induction false} AfterCommaSkips(s: seq<byte>, rest: seq<byte>)
    requires COMMA !in s
    ensures AfterComma(s + [COMMA] + rest) == Some(rest)
  {
    if s == [] {
      assert ([COMMA] + rest)[1..] == rest && s + [COMMA] + rest == [COMMA] + rest;
    } else {
      assert (s + [COMMA] + rest)[1..] == s[1..] + [COMMA] + rest;
      AfterCommaSkips(s[1..], rest);
    }
  }

  /** The characters that commands are made of. */
  lemma CommandCharacters()
    ensures PREFIX == Ascii("AESDCHAR_IOCSEEKTO:") && [COMMA] == Ascii(",")
    ensures [PLUS] == Ascii("+") && [MINUS] == Ascii("-")
    ensures forall b: byte :: IsDigit(b) <==> '0' <= b as char <= '9'
    ensures forall b: byte :: IsSpace(b) <==> b as char == ' ' || '\t' <= b as char <= '\r'
  {
    assert PREFIX == Ascii("AESDCHAR_IOCSEEKTO:");
  }

  /** A number as people write it. */
  function Print(n: nat): (r: string)
    ensures |r| > 0 && forall i :: 0 <= i < |r| ==> '0' <= r[i] <= '9'
  {
    var digit := "0123456789"[n % 10];
    if n < 10 then [digit] else Print(n / 10) + [digit]
  }

  lemma {:induction false} DecimalPrints(n: nat)
    ensures Decimal(n) == Ascii(Print(n))
  {
    if n >= 10 {
      DecimalPrints(n / 10);
    }
  }

  /** The text of a seek request. */
  function Request(x: nat, y: nat): string {
    "AESDCHAR_IOCSEEKTO:" + Print(x) + "," + Print(y) + "\n"
  }

  /** Every request that fits an int is read back as it was printed. */
  lemma RoundTrip(x: nat, y: nat)
    requires x < 0x8000_0000 && y < 0x8000_0000
    ensures Parse(Ascii(Request(x, y))) == Seek(x, y)
  {
    RequestBytes(x, y);
    ParseNumbers(x, y);
  }

  lemma RequestBytes(x: nat, y: nat)
    ensures Ascii(Request(x, y)) == PREFIX + (Decimal(x) + [COMMA] + (Decimal(y) + [NEWLINE]))
  {
    DecimalPrints(x);
    DecimalPrints(y);
    CommandCharacters();
    Characters();
    AsciiConcat("AESDCHAR_IOCSEEKTO:", Print(x));
    AsciiConcat("AESDCHAR_IOCSEEKTO:" + Print(x), ",");
    AsciiConcat("AESDCHAR_IOCSEEKTO:" + Print(x) + ",", Print(y));
    AsciiConcat("AESDCHAR_IOCSEEKTO:" + Print(x) + "," + Print(y), "\n");
    Regroup(PREFIX, Decimal(x), [COMMA], Decimal(y), [NEWLINE]);
  }

  lemma Regroup<T>(a: seq<T>, b: seq<T>, c: seq<T>, d: seq<T>, e: seq<T>)
    ensures a + b + c + d + e == a + (b + c + (d + e))
  {
  }

  lemma ParseNumbers(x: nat, y: nat)
    requires x < 0x8000_0000 && y < 0x8000_0000
    ensures Parse(PREFIX + (Decimal(x) + [COMMA] + (Decimal(y) + [NEWLINE]))) == Seek(x, y)
  {
    var rest := Decimal(y) + [NEWLINE];
    var text := Decimal(x) + [COMMA] + rest;
    Behind(PREFIX, text);
    AfterCommaSkips(Decimal(x), rest);
    Assoc(Decimal(x), [COMMA], rest);
    AtoiDecimal(x, [COMMA] + rest);
    AtoiDecimal(y, [NEWLINE]);
  }

  lemma {:induction false} AfterCommaExactly(s: seq<byte>)
    ensures AfterComma(s).None? <==> COMMA !in s
  {
    if s != [] {
      AfterCommaExactly(s[1..]);
    }
  }

  /** Data is what does not begin as a request does, and a request without a comma is the
      malformed one. */
  lemma ParseExactly(msg: seq<byte>)
    ensures Parse(msg) == Data <==> !(Ascii("AESDCHAR_IOCSEEKTO:") <= msg)
    ensures Parse(msg) == Malformed <==> Ascii("AESDCHAR_IOCSEEKTO:") <= msg && Ascii(",")[0] !in msg
  {
    CommandCharacters();
    assert Ascii(",")[0] == COMMA;
    if PREFIX <= msg {
      AfterCommaExactly(msg[|PREFIX|..]);
      assert msg == PREFIX + msg[|PREFIX|..];
    }
  }
}
