/** The digit loops of the logger: integers to decimal text, and the numbers of log files. */
module Digits {
  import opened Sequences
  import B = Bytes

  // ---------------------------------------------------------------- truncating arithmetic

  function Quot10(n: int): int { if n >= 0 then n / 10 else -((-n) / 10) }

  function Rem10(n: int): (r: int)
    ensures -9 <= r <= 9
  {
    n - 10 * Quot10(n)
  }

  function Abs(n: int): nat { if n < 0 then -n else n }

  const DIGITS := "9876543210123456789"

  /** `zero[lsd]`: the table is centred, so a negative remainder finds its digit too. */
  function DigitChar(d: int): char
    requires -9 <= d <= 9
  {
    DIGITS[9 + d]
  }

  // ---------------------------------------------------------------- the text

  /** What the loop writes, least significant digit first. */
  function LowFirst(n: int): (s: string)
    ensures s != ""
    decreases Abs(n)
  {
    [DigitChar(Rem10(n))] + if Quot10(n) == 0 then "" else LowFirst(Quot10(n))
  }

  /** What the loop and the sign leave, before the text is turned round. */
  function Signed(n: int): string {
    LowFirst(n) + if n < 0 then "-" else ""
  }

  function Decimal(n: int): string {
    Reverse(Signed(n))
  }

  // ---------------------------------------------------------------- reading it back

  predicate IsDigit(c: char) { '0' <= c <= '9' }

  function DigitValue(c: char): int { c as int - '0' as int }

  /** Most significant digit first, as decimal numbers are read. */
  function ParseDigits(s: string): int {
    if s == "" then 0 else 10 * ParseDigits(s[..|s| - 1]) + DigitValue(s[|s| - 1])
  }

  function Parse(s: string): int {
    if s != "" && s[0] == '-' then -ParseDigits(s[1..]) else ParseDigits(s)
  }

  predicate AllDigits(s: string) { forall i :: 0 <= i < |s| ==> IsDigit(s[i]) }

  lemma DigitIsRemainder(n: int)
    ensures IsDigit(DigitChar(Rem10(n))) && DigitValue(DigitChar(Rem10(n))) == Abs(n) - 10 * Abs(Quot10(n))
  {
  }

  lemma OneMoreDigit(front: string, c: char)
    requires AllDigits(front) && IsDigit(c)
    ensures AllDigits(front + [c]) && ParseDigits(front + [c]) == 10 * ParseDigits(front) + DigitValue(c)
    ensures (front + [c])[0] == if front == "" then c else front[0]
  {
    assert (front + [c])[..|front|] == front;
  }

  /** Most significant digit first, the last digit is the remainder. */
  lemma LastDigit(n: int)
    ensures Reverse(LowFirst(n)) == (if Quot10(n) == 0 then "" else Reverse(LowFirst(Quot10(n)))) + [DigitChar(Rem10(n))]
  {
    var c, low := DigitChar(Rem10(n)), if Quot10(n) == 0 then "" else LowFirst(Quot10(n));
    assert LowFirst(n) == [c] + low;
    ReverseFirst(c, low);
  }

  lemma {:induction false} DigitsRoundTrip(n: int)
    ensures AllDigits(Reverse(LowFirst(n))) && ParseDigits(Reverse(LowFirst(n))) == Abs(n)
    ensures Reverse(LowFirst(n))[0] == '0' ==> n == 0
    decreases Abs(n)
  {
    DigitIsRemainder(n);
    LastDigit(n);
    var q, c := Quot10(n), DigitChar(Rem10(n));
    if q == 0 {
      OneMoreDigit("", c);
    } else {
      DigitsRoundTrip(q);
      OneMoreDigit(Reverse(LowFirst(q)), c);
    }
  }

  function Pow10(k: nat): (p: nat)
    ensures p >= 1
  {
    if k == 0 then 1 else 10 * Pow10(k - 1)
  }

  lemma {:induction false} DigitCount(n: int, k: nat)
    requires k >= 1 && Abs(n) < Pow10(k)
    ensures |LowFirst(n)| <= k
    decreases k
  {
    assert k == 1 ==> Pow10(k) == 10 * Pow10(0) == 10;
    if Quot10(n) != 0 {
      DigitCount(Quot10(n), k - 1);
    }
  }

  lemma Pow10Values()
    ensures Pow10(10) == 10_000_000_000
    ensures Pow10(19) == 10_000_000_000_000_000_000 && Pow10(20) == 100_000_000_000_000_000_000
  {
    assert Pow10(5) == 100_000;
    assert Pow10(10) == 100_000 * Pow10(5);
    assert Pow10(15) == 100_000 * Pow10(10);
    assert Pow10(19) == 10_000 * Pow10(15);
  }

  /** Every 64-bit value, signed or unsigned, reads back from its text, which has at most twenty
      characters and no leading zero. */
  lemma DecimalRoundTrip(n: int)
    requires -0x8000_0000_0000_0000 <= n < 0x1_0000_0000_0000_0000
    ensures Parse(Decimal(n)) == n
    ensures 1 <= |Decimal(n)| <= 20
    ensures var digits := if n < 0 then Decimal(n)[1..] else Decimal(n);
            AllDigits(digits) && digits != "" && (digits[0] == '0' ==> digits == "0")
  {
    DigitsRoundTrip(n);
    Pow10Values();
    DigitCount(n, if n < 0 then 19 else 20);
    var r := Reverse(LowFirst(n));
    if n < 0 {
      assert Signed(n)[..|LowFirst(n)|] == LowFirst(n);
      assert Decimal(n) == ['-'] + r && Decimal(n)[1..] == r;
    } else {
      assert LowFirst(n) + "" == LowFirst(n);
      assert IsDigit(r[0]);
    }
  }

  // ---------------------------------------------------------------- the methods

  /** `std::reverse` on the first `n` characters. */
  method ReverseInPlace(buf: array<char>, n: nat)
    requires n <= buf.Length
    modifies buf
    ensures buf[..n] == Reverse(old(buf[..n])) && buf[n..] == old(buf[n..])
  {
    var i := 0;
    while i < n / 2
      invariant i <= n / 2
      invariant forall k :: 0 <= k < i ==> buf[k] == old(buf[n - 1 - k]) && buf[n - 1 - k] == old(buf[k])
      invariant forall k :: i <= k < n - i ==> buf[k] == old(buf[k])
      invariant buf[n..] == old(buf[n..])
    {
      buf[i], buf[n - 1 - i] := buf[n - 1 - i], buf[i];
      i := i + 1;
    }
    ghost var was := old(buf[..n]);
    forall k | 0 <= k < n
      ensures buf[..n][k] == Reverse(was)[k]
    {
      ReverseAt(was, k);
    }
  }

  /** The digits still to come once the loop stands at `i`. */
  function Rest(i: int): string { if i == 0 then "" else LowFirst(i) }

  lemma NextDigit(before: string, i: int)
    ensures before + LowFirst(i) == before + [DigitChar(Rem10(i))] + Rest(Quot10(i))
  {
  }

  /** The digit loop of `convert`. */
  method WriteDigits(buf: array<char>, value: int) returns (p: nat)
    requires |LowFirst(value)| <= buf.Length
    modifies buf
    ensures p <= buf.Length && buf[..p] == LowFirst(value)
  {
    var i := value;
    p := 0;
    var more := true;
    while more
      invariant p <= buf.Length && |LowFirst(value)| <= buf.Length
      invariant (more || i == 0) && buf[..p] + (if more then LowFirst(i) else "") == LowFirst(value)
      decreases more, Abs(i)
    {
      ghost var before := buf[..p];
      NextDigit(before, i);
      assert |before + LowFirst(i)| == p + |LowFirst(i)|;
      buf[p] := DigitChar(Rem10(i));
      assert buf[..p + 1] == before + [buf[p]];
      p := p + 1;
      i := Quot10(i);
      more := i != 0;
    }
    assert buf[..p] + "" == buf[..p];
  }

  method WriteSigned(buf: array<char>, value: int) returns (p: nat)
    requires |LowFirst(value)| < buf.Length
    modifies buf
    ensures p == |Signed(value)| <= buf.Length && buf[..p] == Signed(value)
  {
    ghost var low := LowFirst(value);
    p := WriteDigits(buf, value);
    if value < 0 {
      buf[p] := '-';
      assert buf[..p + 1] == low + "-";
      p := p + 1;
    } else {
      assert buf[..p] == low + "";
    }
  }

  /** `LogStream::convert` for any of its integer types; the callers pass 48 characters. */
  method Convert(buf: array<char>, value: int) returns (size: nat)
    requires buf.Length == 48 && -0x8000_0000_0000_0000 <= value < 0x1_0000_0000_0000_0000
    modifies buf
    ensures size <= 20 && buf[..size] == Decimal(value) && buf[size] == '\0'
  {
    DecimalRoundTrip(value);
    var p := WriteSigned(buf, value);
    buf[p] := '\0';
    ReverseInPlace(buf, p);
    assert buf[p] == buf[p..][0];
    size := p;
  }

  // ---------------------------------------------------------------- numbers of log files

  /** What `getNum` leaves in its zeroed buffer: the digits stand in loop order. */
  function FileSuffix(count: nat): string {
    "_" + (if count == 0 then "" else LowFirst(count)) + ".log"
  }

  lemma {:induction false} LowFirstInjective(m: nat, n: nat)
    requires LowFirst(m) == LowFirst(n)
    ensures m == n
  {
    DigitsRoundTrip(m);
    DigitsRoundTrip(n);
  }

  /** Within one process every file gets a suffix of its own, short enough for the buffer. */
  lemma SuffixesDiffer(m: nat, n: nat)
    requires 1 <= m < 0x8000_0000 && 1 <= n < 0x8000_0000
    ensures |FileSuffix(m)| < 16
    ensures FileSuffix(m) == FileSuffix(n) <==> m == n
  {
    Pow10Values();
    DigitCount(m, 10);
    DigitCount(n, 10);
    if FileSuffix(m) == FileSuffix(n) {
      assert FileSuffix(m)[1..|FileSuffix(m)| - 4] == LowFirst(m);
      assert FileSuffix(n)[1..|FileSuffix(n)| - 4] == LowFirst(n);
      LowFirstInjective(m, n);
    }
  }

  /** Character `i` behind the underscore is decimal digit `i` of the number. */
  lemma {:induction false} LowFirstAt(n: nat, i: nat)
    requires i < |LowFirst(n)|
    ensures DigitValue(LowFirst(n)[i]) == n / Pow10(i) % 10
    decreases i
  {
    DigitIsRemainder(n);
    if i > 0 {
      LowFirstAt(n / 10, i - 1);
      B.DivideTwice(n, 10, Pow10(i - 1));
    }
  }

  lemma SuffixAt(count: nat, i: nat)
    requires count >= 1 && i < |FileSuffix(count)| - 5
    ensures IsDigit(FileSuffix(count)[i + 1]) && DigitValue(FileSuffix(count)[i + 1]) == count / Pow10(i) % 10
  {
    LowFirstAt(count, i);
    LowFirstDigits(count);
    assert FileSuffix(count)[i + 1] == LowFirst(count)[i];
  }

  lemma {:induction false} LowFirstDigits(n: nat)
    ensures AllDigits(LowFirst(n))
  {
    DigitIsRemainder(n);
    if Quot10(n) != 0 { LowFirstDigits(Quot10(n)); }
  }

  lemma DigitsBehind(p: string, a: string)
    requires AllDigits(a)
    ensures var s := p + "_" + a; forall j :: |p| < j < |s| ==> IsDigit(s[j])
  {
    var s := p + "_" + a;
    forall j | |p| < j < |s| ensures IsDigit(s[j]) { assert s[j] == a[j - |p| - 1]; }
  }

  /** Digits behind an underscore tell where they begin. */
  lemma LastPart(p: string, a: string, q: string, b: string)
    requires AllDigits(a) && AllDigits(b) && p + "_" + a == q + "_" + b
    ensures p == q && a == b
  {
    var s := p + "_" + a;
    assert s[|p|] == '_' && s[|q|] == '_';
    DigitsBehind(p, a);
    DigitsBehind(q, b);
    assert |p| == |q|;
    assert s[..|p|] == p && s[..|q|] == q && s[|p| + 1..] == a && s[|q| + 1..] == b;
  }

  /** Whole file names, a path with a time of opening in front, differ as soon as the numbers do,
      whatever the times: no file is opened twice. */
  lemma NamesDiffer(p: string, q: string, m: nat, n: nat)
    requires 1 <= m < 0x8000_0000 && 1 <= n < 0x8000_0000
    ensures p + FileSuffix(m) == q + FileSuffix(n) <==> p == q && m == n
  {
    if p + FileSuffix(m) == q + FileSuffix(n) {
      var a, b := LowFirst(m), LowFirst(n);
      assert p + FileSuffix(m) == p + "_" + a + ".log" && q + FileSuffix(n) == q + "_" + b + ".log";
      var s := p + FileSuffix(m);
      assert s[..|s| - 4] == p + "_" + a && s[..|s| - 4] == q + "_" + b;
      LowFirstDigits(m);
      LowFirstDigits(n);
      LastPart(p, a, q, b);
      LowFirstInjective(m, n);
    }
  }

  class LogFile {
    var fileCount: nat

    constructor ()
      ensures fileCount == 1
    {
      fileCount := 1;
    }

    method GetNum(buf: array<char>) returns (n: nat)
      requires buf.Length == 16 && 1 <= fileCount < 0x7fff_ffff
      modifies this, buf
      ensures fileCount == old(fileCount) + 1
      ensures n < 16 && buf[..n] == FileSuffix(old(fileCount)) && buf[n..] == old(buf[n..])
    {
      SuffixesDiffer(fileCount, fileCount);
      var temp := fileCount;
      fileCount := fileCount + 1;
      buf[0] := '_';
      n := WriteLow(buf, 1, temp);
      ghost var head, tail := buf[..n], buf[n..];
      assert head == "_" + LowFirst(temp) && tail == old(buf[..])[n..];
      buf[n], buf[n + 1], buf[n + 2], buf[n + 3] := '.', 'l', 'o', 'g';
      assert buf[..n + 4] == head + ".log" && buf[n + 4..] == tail[4..];
      n := n + 4;
    }
  }

  function LowDigit(n: nat): char {
    (n % 10 + '0' as int) as char
  }

  lemma NextLow(before: string, n: nat)
    requires n != 0
    ensures before + Rest(n) == before + [LowDigit(n)] + Rest(n / 10)
    ensures |Rest(n)| == 1 + |Rest(n / 10)|
  {
    DigitIsRemainder(n);
    NextDigit(before, n);
  }

  /** The digit loop of `getNum`, from index `at` on. */
  method WriteLow(buf: array<char>, at: nat, value: nat) returns (n: nat)
    requires at + |Rest(value)| <= buf.Length
    modifies buf
    ensures n == at + |Rest(value)| && buf[..n] == old(buf[..at]) + Rest(value) && buf[n..] == old(buf[n..])
  {
    var temp: nat := value;
    n := at;
    while temp != 0
      invariant n + |Rest(temp)| == at + |Rest(value)|
      invariant buf[..n] + Rest(temp) == old(buf[..at]) + Rest(value)
      invariant forall k :: n <= k < buf.Length ==> buf[k] == old(buf[k])
    {
      ghost var before := buf[..n];
      NextLow(before, temp);
      buf[n] := LowDigit(temp);
      assert buf[..n + 1] == before + [buf[n]];
      n := n + 1;
      temp := temp / 10;
    }
    assert buf[..n] + "" == buf[..n];
  }
}
