/** The line number in the panic report (src/panic_handler.rs): a u32 printed into a ten-byte buffer. */
module PanicDigits {
  import opened Nor
  import opened Ascii

  const BUF_SIZE: nat := 10

  function Digit(d: nat): byte
    requires d < 10
  {
    (48 + d) as byte
  }

  function DigitValue(b: byte): int {
    (b as int) - 48
  }

  predicate IsDigit(b: byte) {
    0 <= DigitValue(b) < 10
  }

  function Decimal(n: nat): (s: seq<byte>)
    ensures s != []
  {
    if n < 10 then [Digit(n)] else Decimal(n / 10) + [Digit(n % 10)]
  }

  /** Read digits back. */
  function Parse(s: seq<byte>): int {
    if s == [] then 0 else 10 * Parse(s[..|s| - 1]) + DigitValue(s[|s| - 1])
  }

  /** Digits only, and no leading zero unless it is the only digit. */
  predicate Canonical(s: seq<byte>) {
    && s != []
    && (forall i :: 0 <= i < |s| ==> IsDigit(s[i]))
    && (|s| > 1 ==> DigitValue(s[0]) != 0)
  }

  /** The byte written for a digit is that digit in ASCII. */
  lemma DigitIsAscii(d: nat)
    requires d < 10
    ensures Is(Digit(d), "0123456789"[d])
  {
    DigitRoundTrip(d);
  }

  lemma DigitRoundTrip(d: nat)
    requires d < 10
    ensures DigitValue(Digit(d)) == d
  {
  }

  lemma DigitOfValue(b: byte)
    requires IsDigit(b)
    ensures Digit(DigitValue(b)) == b
  {
  }

  lemma {:induction false} DecimalParses(n: nat)
    ensures Canonical(Decimal(n)) && Parse(Decimal(n)) == n
    ensures n > 0 ==> DigitValue(Decimal(n)[0]) != 0
  {
    if n < 10 {
      DigitRoundTrip(n);
      assert Decimal(n)[..0] == [];
    } else {
      DecimalParses(n / 10);
      DigitRoundTrip(n % 10);
      hide Digit, DigitValue;
      var front := Decimal(n / 10);
      assert Decimal(n) == front + [Digit(n % 10)];
      assert Decimal(n)[..|front|] == front;
    }
  }

  lemma DigitRange(b: byte)
    ensures IsDigit(b) <==> 0 <= DigitValue(b) < 10
  {
  }

  lemma NothingParsed()
    ensures Parse([]) == 0
  {
  }

  lemma ParseSnoc(front: seq<byte>, last: byte)
    ensures Parse(front + [last]) == 10 * Parse(front) + DigitValue(last)
  {
    hide DigitValue;
    assert (front + [last])[..|front|] == front;
  }

  lemma DecimalSnoc(n: nat, d: nat)
    requires d < 10
    ensures Decimal(10 * n + d) == if n == 0 then [Digit(d)] else Decimal(n) + [Digit(d)]
  {
    hide Digit;
    assert (10 * n + d) / 10 == n && (10 * n + d) % 10 == d;
  }

  /** The printed form is the only canonical one. */
  lemma {:induction false} CanonicalIsDecimal(s: seq<byte>)
    requires Canonical(s)
    ensures Parse(s) >= 0 && Decimal(Parse(s)) == s
    ensures DigitValue(s[0]) != 0 ==> Parse(s) > 0
  {
    hide Digit, DigitValue, Decimal, Parse;
    var front, last := s[..|s| - 1], s[|s| - 1];
    assert s == front + [last];
    assert IsDigit(last);
    DigitOfValue(last);
    DigitRange(last);
    ParseSnoc(front, last);
    NothingParsed();
    if front == [] {
      DecimalSnoc(0, DigitValue(last));
    } else {
      CanonicalIsDecimal(front);
      DecimalSnoc(Parse(front), DigitValue(last));
    }
  }

  function Pow10(n: nat): (r: nat)
    ensures r > 0
  {
    if n == 0 then 1 else 10 * Pow10(n - 1)
  }

  lemma TenDigitsSuffice()
    ensures 0x1_0000_0000 <= Pow10(BUF_SIZE)
  {
    assert Pow10(5) == 100_000;
    assert Pow10(10) == 100_000 * Pow10(5);
  }

  /** One turn moves the last digit from the number to the digits already written. */
  lemma NextDigit(n: nat, i: nat, done: seq<byte>)
    requires 0 < i && n < Pow10(i)
    ensures n >= 10 ==> i > 1 && n / 10 < Pow10(i - 1)
    ensures n >= 10 ==> Decimal(n / 10) + ([Digit(n % 10)] + done) == Decimal(n) + done
    ensures n < 10 ==> [Digit(n % 10)] + done == Decimal(n) + done
  {
    assert Pow10(1) == 10 * Pow10(0);
    if n >= 10 {
      assert Decimal(n) + done == Decimal(n / 10) + [Digit(n % 10)] + done;
    }
  }

  /**
   The digit loop: for every u32 it stays inside the buffer and leaves the
   canonical decimal in `buf[i..]`.
   */
  method Print(line: nat) returns (buf: array<byte>, i: nat)
    requires line < 0x1_0000_0000
    ensures buf.Length == 10 && i < 10
    ensures buf[i..] == Decimal(line)
  {
    hide Decimal, Pow10, Digit;
    TenDigitsSuffice();
    buf := new byte[BUF_SIZE](_ => 0);
    var n: nat := line;
    i := BUF_SIZE;
    ghost var done: seq<byte> := [];
    assert Decimal(line) + [] == Decimal(line);
    while true
      invariant 0 < i <= BUF_SIZE && n < Pow10(i)
      invariant buf[i..] == done && Decimal(n) + done == Decimal(line)
      decreases n
    {
      NextDigit(n, i, done);
      i := i - 1;
      buf[i] := Digit(n % 10);
      assert buf[i..] == [Digit(n % 10)] + buf[i + 1..];
      done := [Digit(n % 10)] + done;
      if n / 10 == 0 {
        break;
      }
      n := n / 10;
    }
  }
}
