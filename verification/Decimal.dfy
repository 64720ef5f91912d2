/** decode_decimal and numlen of encoding.c, and the digits sprintf prints for them. */
module Decimal {
  import opened Options
  import opened Base64

  predicate IsDigit(c: bv8) {
    0x30 <= c <= 0x39
  }

  function DigitChar(d: nat): (c: bv8)
    requires d < 10
    ensures IsDigit(c)
  {
    match d
    case 0 => 0x30 case 1 => 0x31 case 2 => 0x32 case 3 => 0x33 case 4 => 0x34
    case 5 => 0x35 case 6 => 0x36 case 7 => 0x37 case 8 => 0x38 case _ => 0x39
  }

  function DigitOf(c: bv8): (d: nat)
    requires IsDigit(c)
    ensures d < 10 && DigitChar(d) == c
  {
    if c == 0x30 then 0 else if c == 0x31 then 1 else if c == 0x32 then 2 else if c == 0x33 then 3
    else if c == 0x34 then 4 else if c == 0x35 then 5 else if c == 0x36 then 6 else if c == 0x37 then 7
    else if c == 0x38 then 8 else 9
  }

  lemma DigitCharIs(d: nat)
    requires d < 10
    ensures DigitChar(d) as int == '0' as int + d
  {
  }

  lemma DigitBack(d: nat)
    requires d < 10
    ensures DigitOf(DigitChar(d)) == d
  {
  }

  predicate AllDigits(t: Text) {
    forall k | 0 <= k < |t| :: IsDigit(t[k])
  }

  /** The number a string of digits denotes. */
  function Number(t: Text): (n: nat)
    requires AllDigits(t)
  {
    if t == [] then 0 else 10 * Number(t[..|t| - 1]) + DigitOf(t[|t| - 1])
  }

  /** What sprintf("%lu") prints. */
  function Print(n: nat): (t: Text)
    ensures |t| >= 1 && AllDigits(t)
    ensures n < 10 ==> |t| == 1
    decreases n
  {
    if n < 10 then [DigitChar(n)] else Print(n / 10) + [DigitChar(n % 10)]
  }

  predicate NoLeadingZero(t: Text) {
    t != [] && (t[0] == 0x30 ==> |t| == 1)
  }

  lemma {:induction false} NumberOfPrint(n: nat)
    ensures Number(Print(n)) == n && NoLeadingZero(Print(n))
    ensures n > 0 ==> Print(n)[0] != 0x30
    decreases n
  {
    if n < 10 {
      DigitBack(n);
      assert Print(n)[..0] == [];
    } else {
      NumberOfPrint(n / 10);
      DigitBack(n % 10);
      assert Print(n)[..|Print(n)| - 1] == Print(n / 10);
    }
  }

  lemma {:induction false} PositiveNumber(t: Text)
    requires AllDigits(t) && t != [] && t[0] != 0x30
    ensures Number(t) >= 1
    decreases |t|
  {
    if |t| > 1 {
      PositiveNumber(t[..|t| - 1]);
    } else {
      assert t[..0] == [];
      DigitBack(0);
    }
  }

  /** Without a leading zero the digits are exactly those printed for their number. */
  lemma {:induction false} PrintOfNumber(t: Text)
    requires AllDigits(t) && NoLeadingZero(t)
    ensures Print(Number(t)) == t
    decreases |t|
  {
    var init := t[..|t| - 1];
    if |t| == 1 {
      assert init == [];
    } else {
      PrintOfNumber(init);
      PositiveNumber(init);
      QuotientOfTen(Number(init), DigitOf(t[|t| - 1]));
      assert t == init + [t[|t| - 1]];
    }
  }

  lemma QuotientOfTen(n: nat, d: nat)
    requires d < 10
    ensures (10 * n + d) / 10 == n && (10 * n + d) % 10 == d
  {
  }

  lemma {:induction false} NumberGrows(t: Text, n: nat)
    requires AllDigits(t) && n <= |t|
    ensures Number(t[..n]) <= Number(t)
    decreases |t|
  {
    if n == |t| {
      assert t[..n] == t;
    } else {
      NumberGrows(t[..|t| - 1], n);
      assert t[..|t| - 1][..n] == t[..n];
    }
  }

  /** How many digits stand at `pos`. */
  function DigitRun(t: Text, pos: nat): (n: nat)
    requires pos <= |t|
    ensures pos + n <= |t| && forall k | pos <= k < pos + n :: IsDigit(t[k])
    ensures pos + n < |t| ==> !IsDigit(t[pos + n])
    decreases |t| - pos
  {
    if pos < |t| && IsDigit(t[pos]) then 1 + DigitRun(t, pos + 1) else 0
  }

  lemma DigitRunIs(t: Text, pos: nat, n: nat)
    requires pos + n <= |t| && forall k | pos <= k < pos + n :: IsDigit(t[k])
    requires pos + n < |t| ==> !IsDigit(t[pos + n])
    ensures DigitRun(t, pos) == n
  {
  }

  datatype Numeral = Numeral(value: nat, next: nat)

  function DigitsAt(t: Text, pos: nat): (d: Text)
    requires pos <= |t|
    ensures AllDigits(d)
  {
    t[pos..pos + DigitRun(t, pos)]
  }

  /** One more digit: the two overflow tests let it in exactly when the number stays within `max`. */
  method AddDigit(ghost d: Text, ghost n: nat, acc: nat, c: nat, max: nat) returns (sum: Option<nat>)
    requires AllDigits(d) && n < |d| && acc == Number(d[..n]) <= max && c == DigitOf(d[n])
    ensures sum == if Number(d[..n + 1]) <= max then Some(Number(d[..n + 1])) else None
  {
    assert d[..n + 1][..n] == d[..n];
    if acc > max / 10 {
      return None;
    }
    var tens := acc * 10;
    if c > max - tens {
      return None;
    }
    return Some(tens + c);
  }

  /** decode_decimal with `max` for ULONG_MAX: the overflow tests refuse exactly the numbers above it. */
  method DecodeDecimal(src: Text, pos: nat, max: nat) returns (r: Option<Numeral>)
    requires pos <= |src|
    ensures var d := DigitsAt(src, pos);
      && (r.Some? <==> NoLeadingZero(d) && Number(d) <= max)
      && (r.Some? ==> r.value == Numeral(Number(d), pos + |d|))
  {
    hide Number, DigitsAt, DigitRun, DigitOf;
    ghost var d := DigitsAt(src, pos);
    var acc, next := 0, pos;
    NothingRead(d);
    DigitsFrom(src, pos, 0);
    while IsDigit(CharOrZero(src, next))
      invariant pos <= next <= pos + |d| && next <= |src|
      invariant IsDigit(CharOrZero(src, next)) <==> next < pos + |d|
      invariant acc == Number(d[..next - pos]) <= max
      decreases |src| - next
    {
      DigitsFrom(src, pos, next - pos);
      NumberGrows(d, next - pos + 1);
      var sum := AddDigit(d, next - pos, acc, DigitOf(src[next]), max);
      if sum.None? {
        return None;
      }
      acc, next := sum.value, next + 1;
      DigitsFrom(src, pos, next - pos);
    }
    assert d[..next - pos] == d;
    DigitsFrom(src, pos, 0);
    if next == pos || (src[pos] == 0x30 && next != pos + 1) {
      return None;
    }
    return Some(Numeral(acc, next));
  }

  lemma NothingRead(d: Text)
    requires AllDigits(d)
    ensures Number(d[..0]) == 0
  {
  }

  lemma DigitsFrom(t: Text, pos: nat, n: nat)
    requires pos <= |t| && n <= |DigitsAt(t, pos)|
    ensures pos + n <= |t| && (IsDigit(CharOrZero(t, pos + n)) <==> n < |DigitsAt(t, pos)|)
    ensures n < |DigitsAt(t, pos)| ==> pos + n < |t| && DigitsAt(t, pos)[n] == t[pos + n]
  {
  }

  /** Reading back what was printed, wherever it stands before a character that is not a digit. */
  lemma DigitsOfPrint(pre: Text, n: nat, rest: Text)
    requires rest != [] ==> !IsDigit(rest[0])
    ensures DigitsAt(pre + Print(n) + rest, |pre|) == Print(n)
  {
    hide Print;
    var t, p := pre + Print(n) + rest, Print(n);
    forall k | 0 <= k < |p|
      ensures t[|pre| + k] == p[k]
    {
    }
    assert forall k | |pre| <= k < |pre| + |p| :: t[k] == p[k - |pre|];
    DigitRunIs(t, |pre|, |p|);
    assert t[|pre|..|pre| + |p|] == p;
  }

  /** numlen counts the digits that are printed. */
  method NumLen(num: nat) returns (len: nat)
    ensures len == |Print(num)|
  {
    len := 1;
    var n := num;
    while n >= 10
      invariant len + |Print(n)| == 1 + |Print(num)|
    {
      len, n := len + 1, n / 10;
    }
  }
}
