/** Python's `str(n).encode()` for an integer `n`: its decimal text (a leading
    '-' for a negative number, no leading zeros), encoded as UTF-8 bytes,
    together with a reference decoder that reads such a payload back. */
module DecimalText {
  import opened Wrappers

  newtype byte = b: int | 0 <= b < 256

  predicate IsDigit(c: char) {
    '0' <= c <= '9'
  }

  predicate AllDigits(s: string) {
    forall i :: 0 <= i < |s| ==> IsDigit(s[i])
  }

  /** Digits with no superfluous leading zero: "0", "7", "120", not "" or "007". */
  predicate IsCanonicalNat(s: string) {
    |s| > 0 && AllDigits(s) && (s[0] == '0' ==> |s| == 1)
  }

  /** The texts `str` produces for an integer: a canonical digit string,
      optionally after a '-' that never precedes "0". */
  predicate IsCanonicalInt(s: string) {
    IsCanonicalNat(s) || (|s| > 1 && s[0] == '-' && IsCanonicalNat(s[1..]) && s[1..] != "0")
  }

  function DigitChar(d: int): (c: char)
    requires 0 <= d < 10
    ensures IsDigit(c)
  {
    ('0' as int + d) as char
  }

  function DigitValue(c: char): (d: nat)
    requires IsDigit(c)
    ensures d < 10 && DigitChar(d) == c
  {
    c as int - '0' as int
  }

  /** The decimal digits of a natural number, most significant first. */
  function NatDigits(n: nat): (s: string)
    ensures IsCanonicalNat(s)
    ensures (s == "0") == (n == 0)
    decreases n
  {
    if n < 10 then [DigitChar(n)] else NatDigits(n / 10) + [DigitChar(n % 10)]
  }

  /** The number a string of digits denotes. */
  function DigitsValue(s: string): nat
    requires AllDigits(s)
  {
    if s == [] then 0 else DigitsValue(s[..|s| - 1]) * 10 + DigitValue(s[|s| - 1])
  }

  /** `str(n)` for an integer `n`. */
  function Str(n: int): (s: string)
    ensures IsCanonicalInt(s)
    ensures (s[0] == '-') == (n < 0)
  {
    if n < 0 then "-" + NatDigits(-n) else NatDigits(n)
  }

  /** The texts of a few powers, as Python prints them. */
  lemma StrExamples()
    ensures Str(0) == "0" && Str(7) == "7" && Str(255) == "255" && Str(-128) == "-128"
  {
  }

  /** Reads back an optionally signed string of decimal digits. */
  function ParseInt(s: string): Option<int> {
    if |s| > 1 && s[0] == '-' && AllDigits(s[1..]) then Some(-(DigitsValue(s[1..]) as int))
    else if |s| > 0 && AllDigits(s) then Some(DigitsValue(s))
    else None
  }

  /** `.encode()` of a text made of ASCII characters: one byte per character,
      holding the character's code. */
  function EncodeAscii(s: string): (b: seq<byte>)
    requires forall i :: 0 <= i < |s| ==> s[i] as int < 128
    ensures |b| == |s|
  {
    if s == [] then [] else [s[0] as int as byte] + EncodeAscii(s[1..])
  }

  function DecodeAscii(b: seq<byte>): string {
    if b == [] then [] else [b[0] as int as char] + DecodeAscii(b[1..])
  }

  /** The datagram payload for a power value: `str(power).encode()`. */
  function Payload(n: int): (b: seq<byte>)
    ensures |b| == |Str(n)| > 0
  {
    var s := Str(n);
    assert forall i :: 0 <= i < |s| ==> s[i] == '-' || IsDigit(s[i]);
    EncodeAscii(s)
  }

  /** The receiving side's reading of a payload. */
  function ParsePayload(b: seq<byte>): Option<int> {
    ParseInt(DecodeAscii(b))
  }

  lemma {:induction false} DigitsValueOfNatDigits(n: nat)
    ensures DigitsValue(NatDigits(n)) == n
    decreases n
  {
    if n >= 10 {
      var p := NatDigits(n / 10);
      var s := p + [DigitChar(n % 10)];
      assert s[..|s| - 1] == p;
      DigitsValueOfNatDigits(n / 10);
    }
  }

  /** A digit string that does not start with '0' denotes a positive number. */
  lemma {:induction false} LeadingDigitPositive(s: string)
    requires |s| > 0 && AllDigits(s) && s[0] != '0'
    ensures DigitsValue(s) > 0
  {
    if |s| > 1 {
      LeadingDigitPositive(s[..|s| - 1]);
    }
  }

  lemma {:induction false} NatDigitsOfDigitsValue(s: string)
    requires IsCanonicalNat(s)
    ensures NatDigits(DigitsValue(s)) == s
    decreases |s|
  {
    if |s| > 1 {
      var p := s[..|s| - 1];
      LeadingDigitPositive(p);
      NatDigitsOfDigitsValue(p);
      assert s == p + [s[|s| - 1]];
    }
  }

  /** Parsing the text of an integer gives that integer back. */
  lemma ParseStr(n: int)
    ensures ParseInt(Str(n)) == Some(n)
  {
    if n < 0 {
      assert Str(n)[1..] == NatDigits(-n);
      DigitsValueOfNatDigits(-n);
    } else {
      DigitsValueOfNatDigits(n);
    }
  }

  /** Conversely, every text of the form `str` produces is the text of the
      integer it parses to. */
  lemma StrParse(s: string)
    requires IsCanonicalInt(s)
    ensures ParseInt(s).Some? && Str(ParseInt(s).value) == s
  {
    if s[0] == '-' {
      var t := s[1..];
      NatDigitsOfDigitsValue(t);
      LeadingDigitPositive(t);
      assert s == "-" + t;
    } else {
      NatDigitsOfDigitsValue(s);
    }
  }

  lemma {:induction false} DecodeEncodeAscii(s: string)
    requires forall i :: 0 <= i < |s| ==> s[i] as int < 128
    ensures DecodeAscii(EncodeAscii(s)) == s
  {
    if s != [] {
      DecodeEncodeAscii(s[1..]);
    }
  }

  /** Each byte of an encoded ASCII text is the code of the character at the
      same place. */
  lemma {:induction false} EncodeAsciiAt(s: string, i: int)
    requires forall j :: 0 <= j < |s| ==> s[j] as int < 128
    requires 0 <= i < |s|
    ensures |EncodeAscii(s)| == |s| && EncodeAscii(s)[i] as int == s[i] as int
  {
    if i > 0 {
      EncodeAsciiAt(s[1..], i - 1);
    }
  }

  /** A payload is never empty and holds only the bytes of '-' and of the
      digits '0' to '9'. */
  lemma PayloadBytes(n: int)
    ensures |Payload(n)| > 0
    ensures forall i :: 0 <= i < |Payload(n)| ==> Payload(n)[i] == 45 || 48 <= Payload(n)[i] <= 57
  {
    var s := Str(n);
    forall i | 0 <= i < |Payload(n)|
      ensures Payload(n)[i] == 45 || 48 <= Payload(n)[i] <= 57
    {
      EncodeAsciiAt(s, i);
    }
  }

  /** The receiver reads back exactly the power that was sent. */
  lemma ParsePayloadRoundTrip(n: int)
    ensures ParsePayload(Payload(n)) == Some(n)
  {
    DecodeEncodeAscii(Str(n));
    ParseStr(n);
  }

  /** Distinct powers are sent as distinct payloads. */
  lemma PayloadInjective(m: int, n: int)
    requires Payload(m) == Payload(n)
    ensures m == n
  {
    ParsePayloadRoundTrip(m);
    ParsePayloadRoundTrip(n);
  }
}
