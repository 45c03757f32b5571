/** Decimal printing of wget's 64-bit `wgint`: digit counting, printing
    into a caller's buffer, the three-slot ring of static buffers, and the
    insertion of thousands separators. */
module Numbers {
  import opened Common

  /** Largest `wgint` (the model fixes SIZEOF_WGINT == 8). */
  const WGINT_MAX: int := 0x7FFF_FFFF_FFFF_FFFF
  const WGINT_MIN: int := -0x8000_0000_0000_0000

  predicate IsWgint(n: int)
  {
    WGINT_MIN <= n <= WGINT_MAX
  }

  /** Two's-complement wrap-around to 64 bits. Negating the one value
      whose negation does not fit is undefined behaviour in C; the model
      takes the wrap that common compilers produce for `-number`. */
  function Wrap64(x: int): int
  {
    var m := x % 0x1_0000_0000_0000_0000;
    if m > WGINT_MAX then m - 0x1_0000_0000_0000_0000 else m
  }

  /** C's `/`, which truncates toward zero. */
  function CDiv(a: int, b: int): int
    requires b > 0
  {
    if a >= 0 then a / b else -((-a) / b)
  }

  function Pow10(k: nat): nat
  {
    if k == 0 then 1 else 10 * Pow10(k - 1)
  }

  lemma {:induction false} Pow10Positive(k: nat)
    ensures Pow10(k) >= 1
  {
    if k > 0 {
      Pow10Positive(k - 1);
    }
  }

  /** Quotient and remainder are determined by the division equation. */
  lemma DivModUnique(n: int, d: int, q: int, r: int)
    requires d > 0 && n == d * q + r && 0 <= r < d
    ensures n / d == q && n % d == r
  {
    var q', r' := n / d, n % d;
    assert n == d * q' + r' && 0 <= r' < d;
    assert d * (q - q') == r' - r;
    assert q - q' >= 1 ==> d * (q - q') >= d;
    assert q' - q >= 1 ==> d * (q' - q) >= d;
  }

  /** Dividing by ten and then by `p` is dividing by `10 * p`, and the
      last digit survives reduction modulo `10 * p`. */
  lemma DivTenThen(n: nat, p: nat)
    requires p >= 1
    ensures (n / 10) / p == n / (10 * p)
    ensures (n % (10 * p)) / 10 == (n / 10) % p
    ensures (n % (10 * p)) % 10 == n % 10
  {
    var tp := 10 * p;
    var q, r := n / tp, n % tp;
    var a, b := r / 10, r % 10;
    assert a < p by {
      DivModUnique(r, 10, a, b);
    }
    assert n == 10 * (p * q + a) + b by {
      assert tp * q == 10 * (p * q);
    }
    DivModUnique(n, 10, p * q + a, b);
    DivModUnique(n / 10, p, q, a);
  }

  function DigitChar(d: int): char
    requires 0 <= d < 10
  {
    "0123456789"[d]
  }

  predicate IsDigit(c: char)
  {
    '0' <= c <= '9'
  }

  /** Reading a digit back gives its value. */
  lemma DigitCharValue(d: int)
    requires 0 <= d < 10
    ensures IsDigit(DigitChar(d))
    ensures DigitChar(d) as int - '0' as int == d
  {
  }

  /** The last `k` decimal digits of `n`, most significant first, with
      leading zeros. */
  function Padded(n: nat, k: nat): string
  {
    if k == 0 then [] else Padded(n / 10, k - 1) + [DigitChar(n % 10)]
  }

  /** Number of decimal digits of `m`. */
  function NumLen(m: nat): (k: nat)
    ensures k >= 1 && m < Pow10(k)
    ensures k > 1 ==> Pow10(k - 1) <= m
  {
    if m < 10 then 1 else 1 + NumLen(m / 10)
  }

  lemma {:induction false} NumLenUnique(m: nat, k: nat)
    requires k >= 1 && m < Pow10(k) && (k > 1 ==> Pow10(k - 1) <= m)
    ensures NumLen(m) == k
  {
    if k > 1 {
      assert m >= 10 by { Pow10Positive(k - 2); }
      NumLenUnique(m / 10, k - 1);
    } else if m >= 10 {
      assert false;
    }
  }

  /** Canonical decimal rendering of a natural number. */
  function Digits(m: nat): string
  {
    Padded(m, NumLen(m))
  }

  /** The text `sprintf("%lld", n)` produces: a '-' for negative numbers,
      then the digits of the magnitude without leading zeros. */
  function Decimal(n: int): string
  {
    if n < 0 then ['-'] + Digits(-n) else Digits(n)
  }

  /** Value of a string of decimal digits. */
  function DigitsValue(s: string): int
  {
    if s == [] then 0 else 10 * DigitsValue(s[..|s| - 1]) + (s[|s| - 1] as int - '0' as int)
  }

  /** Reading a decimal numeral back: the inverse of Decimal. */
  function ParseDecimal(s: string): int
  {
    if |s| > 0 && s[0] == '-' then -DigitsValue(s[1..]) else DigitsValue(s)
  }

  lemma {:induction false} PaddedFacts(n: nat, k: nat)
    requires n < Pow10(k)
    ensures |Padded(n, k)| == k
    ensures forall i :: 0 <= i < k ==> IsDigit(Padded(n, k)[i])
    ensures DigitsValue(Padded(n, k)) == n
  {
    if k > 0 {
      PaddedFacts(n / 10, k - 1);
      DigitCharValue(n % 10);
      var s := Padded(n, k);
      assert s[..|s| - 1] == Padded(n / 10, k - 1);
    }
  }

  /** The first of the `k` digits is `n / 10^(k-1)`: printing from the
      most significant figure down produces the same text. */
  lemma {:induction false} PaddedFront(n: nat, k: nat)
    requires k >= 1 && n < Pow10(k)
    ensures Pow10(k - 1) >= 1 && 0 <= n / Pow10(k - 1) < 10
    ensures Padded(n, k) == [DigitChar(n / Pow10(k - 1))] + Padded(n % Pow10(k - 1), k - 1)
  {
    if k == 1 {
      assert Pow10(0) == 1 && Pow10(1) == 10;
      assert n / 1 == n && n % 1 == 0 && n / 10 == 0 && n % 10 == n;
      assert Padded(n / 10, 0) == [];
    } else {
      var j := k - 1;
      var p := Pow10(j - 1);
      var tp := Pow10(j);
      assert tp == 10 * p;
      var m := n / 10;
      DivTenBound(n, tp);
      PaddedFront(m, j);
      DivTenThen(n, p);
      var r := n % tp;
      assert m / p == n / tp && r / 10 == m % p && r % 10 == n % 10;
      PaddedLast(n, k);
      PaddedLast(r, j);
      assert ([DigitChar(m / p)] + Padded(m % p, j - 1)) + [DigitChar(n % 10)] ==
             [DigitChar(m / p)] + (Padded(m % p, j - 1) + [DigitChar(n % 10)]);
    }
  }

  /** The last of the `k` digits is `n % 10`. */
  lemma PaddedLast(n: nat, k: nat)
    requires k >= 1
    ensures Padded(n, k) == Padded(n / 10, k - 1) + [DigitChar(n % 10)]
  {
  }

  lemma DivTenBound(n: nat, c: nat)
    requires n < 10 * c
    ensures n / 10 < c
  {
  }

  /** Decimal renders every integer as a numeral that reads back to it. */
  lemma DecimalRoundTrip(n: int)
    ensures ParseDecimal(Decimal(n)) == n
    ensures n >= 0 ==> |Decimal(n)| == NumLen(n)
    ensures n < 0 ==> |Decimal(n)| == NumLen(-n) + 1
  {
    var m := if n < 0 then -n else n;
    DigitsRoundTrip(m);
    if n < 0 {
      assert Decimal(n)[1..] == Digits(m);
    }
  }

  lemma DigitsRoundTrip(m: nat)
    ensures |Digits(m)| == NumLen(m) && IsDigit(Digits(m)[0])
    ensures DigitsValue(Digits(m)) == m
  {
    PaddedFacts(m, NumLen(m));
  }

  lemma DecimalInjective(a: int, b: int)
    requires Decimal(a) == Decimal(b)
    ensures a == b
  {
    DecimalRoundTrip(a);
    DecimalRoundTrip(b);
  }

  lemma Pow10Table()
    ensures Pow10(18) == 1_000_000_000_000_000_000
    ensures Pow10(19) == 10_000_000_000_000_000_000
  {
    assert Pow10(1) == 10;
    assert Pow10(2) == 100;
    assert Pow10(3) == 1000;
    assert Pow10(4) == 10000;
    assert Pow10(5) == 100000;
    assert Pow10(6) == 1000000;
    assert Pow10(7) == 10000000;
    assert Pow10(8) == 100000000;
    assert Pow10(9) == 1000000000;
    assert Pow10(10) == 10000000000;
    assert Pow10(11) == 100000000000;
    assert Pow10(12) == 1000000000000;
    assert Pow10(13) == 10000000000000;
    assert Pow10(14) == 100000000000000;
    assert Pow10(15) == 1000000000000000;
    assert Pow10(16) == 10000000000000000;
    assert Pow10(17) == 100000000000000000;
  }

  /** Every wgint prints in at most 20 characters, so with the terminating
      zero it fits the 24-byte buffers the callers provide. */
  lemma {:induction false} DecimalFitsBuffer(n: int)
    requires IsWgint(n)
    ensures |Decimal(n)| <= 20
  {
    DecimalRoundTrip(n);
    var m := if n < 0 then -n else n;
    Pow10Table();
    NumLenAtMost(m, 19);
  }

  lemma {:induction false} NumLenAtMost(m: nat, k: nat)
    requires k >= 1 && m < Pow10(k)
    ensures NumLen(m) <= k
  {
    if m >= 10 {
      if k == 1 {
        assert false;
      }
      NumLenAtMost(m / 10, k - 1);
    }
  }

  // ---------------------------------------------------------------------
  // numdigit

  /** Divisions by ten (with C's truncating `/`) that stay positive. */
  function DivisionsAbove0(m: int): nat
    decreases if m > 0 then m else 0
  {
    if CDiv(m, 10) > 0 then 1 + DivisionsAbove0(CDiv(m, 10)) else 0
  }

  lemma {:induction false} DivisionsCountDigits(m: nat)
    ensures DivisionsAbove0(m) + 1 == NumLen(m)
  {
    if m >= 10 {
      DivisionsCountDigits(m / 10);
    }
  }

  /** numdigit as written, built by a compiler that wraps `-number` in
      64 bits (C leaves the overflow undefined). */
  function NumDigitAsWritten(number: int): int
    requires IsWgint(number)
  {
    if number < 0 then 2 + DivisionsAbove0(Wrap64(-number))
    else 1 + DivisionsAbove0(number)
  }

  /** numdigit with the negation done exactly: the count of characters
      number_to_string prints, sign included. */
  function NumDigit(number: int): (cnt: int)
    ensures cnt == |Decimal(number)|
    ensures cnt >= 1
  {
    DecimalRoundTrip(number);
    if number < 0 then
      DivisionsCountDigits(-number);
      2 + DivisionsAbove0(-number)
    else
      DivisionsCountDigits(number);
      1 + DivisionsAbove0(number)
  }

  /** On every wgint except the most negative one the two agree. */
  lemma NumDigitAgrees(number: int)
    requires IsWgint(number) && number != WGINT_MIN
    ensures NumDigitAsWritten(number) == NumDigit(number)
  {
    if number < 0 {
      DivModUnique(-number, 0x1_0000_0000_0000_0000, 0, -number);
      assert Wrap64(-number) == -number;
    }
  }

  /** On the most negative wgint, `-number` wraps to itself, the division
      loop never runs, and numdigit answers 2 for a 20-character numeral. */
  lemma NumDigitMinimumWrong()
    ensures NumDigitAsWritten(WGINT_MIN) == 2
    ensures |Decimal(WGINT_MIN)| == 20
  {
    assert Wrap64(-WGINT_MIN) == WGINT_MIN;
    assert CDiv(WGINT_MIN, 10) < 0;
    Pow10Table();
    NumLenUnique(-WGINT_MIN, 19);
    DecimalRoundTrip(WGINT_MIN);
  }

  // ---------------------------------------------------------------------
  // number_to_string

  /** Prints `number` into `buffer` and returns the index of the
      terminating zero, which is therefore the printed length. */
  method NumberToString(buffer: array<char>, number: int) returns (p: nat)
    requires buffer.Length >= 24
    requires IsWgint(number)
    modifies buffer
    ensures p == |Decimal(number)| && p < buffer.Length
    ensures buffer[..p] == Decimal(number)
    ensures buffer[p] == '\0'
    ensures p == NumDigit(number)
  {
    p := 0;
    var n := number;
    if n < 0 {
      if n < -WGINT_MAX {
        // The border case is left to sprintf, which prints the same text.
        DecimalFitsBuffer(n);
        p := CopyText(buffer, Decimal(n));
        return;
      }
      buffer[p] := '-';
      p := p + 1;
      n := -n;
    }
    ghost var sign := buffer[..p];
    assert sign + Digits(n) == Decimal(number);
    MagnitudeBound();
    ghost var start := p;
    p := PrintMagnitude(buffer, p, n);
    assert buffer[..p] == buffer[..start] + buffer[start..p];
    assert buffer[..start] == sign;
  }

  lemma MagnitudeBound()
    ensures WGINT_MAX < Pow10(19)
  {
    Pow10Table();
  }

  /** Everything after the sign: the cascade picking DIGITS_k, the digits,
      and the terminating zero. */
  method PrintMagnitude(buffer: array<char>, start: nat, n: nat) returns (p: nat)
    requires n < Pow10(19) && start + 20 <= buffer.Length
    modifies buffer
    ensures p == start + |Digits(n)| && p < buffer.Length
    ensures buffer[..start] == old(buffer[..start])
    ensures buffer[start..p] == Digits(n) && buffer[p] == '\0'
  {
    var k, figure := DigitCount(n);
    p := DigitsK(buffer, start, n, k, figure);
    assert |Digits(n)| == k by { DigitsRoundTrip(n); }
    buffer[p] := '\0';
  }

  /** What `sprintf` does with the text it formats: copy it and terminate
      it. */
  method CopyText(buffer: array<char>, text: string) returns (p: nat)
    requires |text| < buffer.Length
    modifies buffer
    ensures p == |text| && buffer[..p] == text && buffer[p] == '\0'
  {
    p := 0;
    while p < |text|
      invariant p <= |text|
      invariant buffer[..p] == text[..p]
    {
      buffer[p] := text[p];
      p := p + 1;
    }
    buffer[p] := '\0';
  }

  /** The if/else-if cascade that picks DIGITS_k for the `k` with
      `n < 10^k`; `figure` is the first figure DIGITS_k prints. */
  method DigitCount(n: nat) returns (k: nat, figure: nat)
    requires n < Pow10(19)
    ensures k == NumLen(n) && k <= 19 && figure == Pow10(k - 1)
  {
    k := 1;
    figure := 1;
    while k < 19 && n >= figure * 10
      invariant 1 <= k <= 19
      invariant figure == Pow10(k - 1)
      invariant k > 1 ==> Pow10(k - 1) <= n
    {
      k := k + 1;
      figure := figure * 10;
    }
    NumLenUnique(n, k);
  }

  /** ONE_DIGIT_ADVANCE(figure): print `n / figure` and keep `n % figure`.
      The digit printed is the first of the `k` digits of `n`, and the
      remaining `k - 1` digits are those of what is kept. */
  method OneDigitAdvance(buffer: array<char>, p: nat, n: nat, k: nat, figure: nat) returns (rest: nat)
    requires k >= 1 && n < Pow10(k) && figure == Pow10(k - 1)
    requires p < buffer.Length
    modifies buffer
    ensures forall i :: 0 <= i < buffer.Length && i != p ==> buffer[i] == old(buffer[i])
    ensures rest < Pow10(k - 1)
    ensures Padded(n, k) == [buffer[p]] + Padded(rest, k - 1)
  {
    PaddedFront(n, k);
    buffer[p] := DigitChar(n / figure);
    rest := n % figure;
  }

  /** Writing position `p` extends the text written from `start` and
      keeps everything before `start`. */
  lemma WriteExtends(before: seq<char>, after: seq<char>, start: nat, p: nat)
    requires start <= p < |before| == |after|
    requires forall i :: 0 <= i < |after| && i != p ==> after[i] == before[i]
    ensures after[..start] == before[..start]
    ensures after[start..p + 1] == before[start..p] + [after[p]]
  {
  }

  lemma AppendStep(w: string, c: char, a: string, b: string)
    requires a == [c] + b
    ensures w + a == (w + [c]) + b
  {
  }

  lemma FigureDown(k: nat, figure: nat)
    requires k >= 1 && figure == Pow10(k - 1)
    ensures k - 1 > 0 ==> figure / 10 == Pow10(k - 2)
  {
  }

  /** DIGITS_k(figure): `k` ONE_DIGIT_ADVANCE steps with figures
      `10^(k-1)`, ..., `1`, writing the `k` digits of `n0` from `start` on. */
  method DigitsK(buffer: array<char>, start: nat, n0: nat, k0: nat, figure0: nat) returns (p: nat)
    requires n0 < Pow10(k0) && (k0 > 0 ==> figure0 == Pow10(k0 - 1))
    requires start + k0 <= buffer.Length
    modifies buffer
    ensures p == start + k0
    ensures buffer[..start] == old(buffer[..start])
    ensures buffer[start..p] == Padded(n0, k0)
  {
    var n: nat, k: nat, figure: nat := n0, k0, figure0;
    p := start;
    while k > 0
      invariant p == start + (k0 - k) && k <= k0
      invariant n < Pow10(k)
      invariant k > 0 ==> figure == Pow10(k - 1)
      invariant buffer[..start] == old(buffer[..start])
      invariant buffer[start..p] + Padded(n, k) == Padded(n0, k0)
    {
      ghost var written := buffer[start..p];
      ghost var before := buffer[..];
      var rest := OneDigitAdvance(buffer, p, n, k, figure);
      WriteExtends(before, buffer[..], start, p);
      AppendStep(written, buffer[p], Padded(n, k), Padded(rest, k - 1));
      FigureDown(k, figure);
      n := rest;
      p := p + 1;
      k := k - 1;
      figure := figure / 10;
    }
  }

  // ---------------------------------------------------------------------
  // number_to_static_string

  const RING_SIZE: nat := 3

  /** The ring of static buffers behind number_to_static_string: each call
      prints into the next of RING_SIZE buffers, so the texts of the last
      RING_SIZE calls stay valid together. */
  class NumberRing {
    const ring: seq<array<char>>
    var ringpos: nat

    ghost predicate Valid()
      reads this
    {
      |ring| == RING_SIZE && ringpos < RING_SIZE &&
      ring[0].Length == 24 && ring[1].Length == 24 && ring[2].Length == 24 &&
      ring[0] != ring[1] && ring[1] != ring[2] && ring[0] != ring[2]
    }

    constructor ()
      ensures Valid() && ringpos == 0
      ensures forall i :: 0 <= i < |ring| ==> fresh(ring[i])
    {
      var a := new char[24](_ => '\0');
      var b := new char[24](_ => '\0');
      var c := new char[24](_ => '\0');
      ring := [a, b, c];
      ringpos := 0;
    }

    /** Prints `number` into the current buffer, moves to the next one, and
        returns the buffer printed into; the other buffers keep what the
        previous calls printed. */
    method NumberToStaticString(number: int) returns (buf: array<char>)
      requires Valid() && IsWgint(number)
      modifies this, ring[ringpos]
      ensures Valid()
      ensures buf == ring[old(ringpos)]
      ensures ringpos == if old(ringpos) == RING_SIZE - 1 then 0 else old(ringpos) + 1
      ensures Holds(buf[..], Decimal(number))
    {
      buf := ring[ringpos];
      var p := NumberToString(buf, number);
      NextPosition(ringpos);
      ringpos := (ringpos + 1) % RING_SIZE;
    }
  }

  lemma NextPosition(p: nat)
    requires p < RING_SIZE
    ensures (p + 1) % RING_SIZE == if p + 1 == RING_SIZE then 0 else p + 1
  {
  }

  /** The contents of a buffer holding the NUL-terminated C text `text`. */
  predicate Holds(contents: seq<char>, text: string)
  {
    |text| < |contents| && contents[..|text|] == text && contents[|text|] == '\0'
  }

  /** Three calls in a row return three different buffers, and the first
      still holds its number after the other two; the call after them
      reuses the first buffer. */
  method ThreeAtATime(r: NumberRing, x: int, y: int, z: int)
    returns (b1: array<char>, b2: array<char>, b3: array<char>)
    requires r.Valid() && IsWgint(x) && IsWgint(y) && IsWgint(z)
    modifies r, r.ring
    ensures r.Valid() && r.ring[r.ringpos] == b1
    ensures b1 != b2 && b2 != b3 && b1 != b3
    ensures Holds(b1[..], Decimal(x))
  {
    ghost var p1 := r.ringpos;
    b1 := r.NumberToStaticString(x);
    ghost var s1 := b1[..];
    ghost var p2 := r.ringpos;
    b2 := r.NumberToStaticString(y);
    ghost var p3 := r.ringpos;
    b3 := r.NumberToStaticString(z);
    assert p1 != p2 && p2 != p3 && p1 != p3 && r.ringpos == p1;
    assert b1 == r.ring[p1] && b2 == r.ring[p2] && b3 == r.ring[p3];
    assert b1[..] == s1;
  }

  // ---------------------------------------------------------------------
  // legible_1, legible

  /** In a string of `n` digits, a separator goes before position `j`
      when at least one digit precedes it and a multiple of three digits
      follow. */
  predicate SepBefore(n: nat, j: nat)
  {
    j != 0 && (n - j) % 3 == 0
  }

  /** Character `j` of `d`, with the separator that precedes it. */
  function Piece(d: string, j: nat): string
    requires j < |d|
  {
    if SepBefore(|d|, j) then [',', d[j]] else [d[j]]
  }

  /** The first `j` characters of `d`, with the separators that precede
      them: the output of legible_1 after `j` digits. */
  function Grouped(d: string, j: nat): string
    requires j <= |d|
  {
    if j == 0 then [] else Grouped(d, j - 1) + Piece(d, j - 1)
  }

  /** Reference definition: the last three digits form a group, and what
      precedes them is grouped in the same way. */
  function GroupThousands(d: string): string
    decreases |d|
  {
    if |d| <= 3 then d else GroupThousands(d[..|d| - 3]) + [','] + d[|d| - 3..]
  }

  /** legible_1's result for `repr`: the sign kept, the digits grouped. */
  function Legible(repr: string): string
  {
    if |repr| > 0 && repr[0] == '-' then ['-'] + GroupThousands(repr[1..]) else GroupThousands(repr)
  }

  /** Grouping the first `j` characters only depends on them and on the
      length of `d` modulo three. */
  lemma {:induction false} GroupedPrefix(d: string, e: string, j: nat)
    requires j <= |d| && j <= |e| && d[..j] == e[..j] && |d| % 3 == |e| % 3
    ensures Grouped(d, j) == Grouped(e, j)
  {
    if j > 0 {
      assert d[..j - 1] == e[..j - 1] && d[j - 1] == e[j - 1] by {
        assert d[..j - 1] == d[..j][..j - 1] && e[..j - 1] == e[..j][..j - 1];
        assert d[j - 1] == d[..j][j - 1] && e[j - 1] == e[..j][j - 1];
      }
      GroupedPrefix(d, e, j - 1);
      SepBeforeModThree(|d|, |e|, j - 1);
      assert Piece(d, j - 1) == Piece(e, j - 1);
    }
  }

  lemma SepBeforeModThree(n: nat, m: nat, j: nat)
    requires j <= n && j <= m && n % 3 == m % 3
    ensures SepBefore(n, j) == SepBefore(m, j)
  {
    var d := n / 3 - m / 3;
    assert n == 3 * (n / 3) + n % 3 && m == 3 * (m / 3) + m % 3;
    assert n - j == (m - j) + 3 * d;
    ModThreeShift(m - j, d);
  }

  /** Adding a multiple of three keeps the remainder. */
  lemma ModThreeShift(x: int, d: int)
    ensures (x + 3 * d) % 3 == x % 3
  {
    DivModUnique(x + 3 * d, 3, x / 3 + d, x % 3);
  }

  /** Up to three characters get no separator. */
  lemma {:induction false} GroupedShort(d: string, j: nat)
    requires j <= |d| <= 3
    ensures Grouped(d, j) == d[..j]
  {
    if j > 0 {
      GroupedShort(d, j - 1);
      assert !SepBefore(|d|, j - 1);
      assert d[..j] == d[..j - 1] + [d[j - 1]];
    }
  }

  /** The left-to-right separator rule of legible_1 builds the reference
      grouping. */
  lemma {:induction false} GroupedIsGroupThousands(d: string)
    ensures Grouped(d, |d|) == GroupThousands(d)
    decreases |d|
  {
    var n := |d|;
    if n <= 3 {
      GroupedShort(d, n);
    } else {
      var e := d[..n - 3];
      GroupedIsGroupThousands(e);
      assert |e| == n - 3 && e[..n - 3] == e && d[..n - 3] == e;
      ModThreeStep(n);
      GroupedPrefix(d, e, n - 3);
      GroupedLastGroup(d);
      assert GroupThousands(d) == GroupThousands(e) + [','] + d[n - 3..];
    }
  }

  lemma ModThreeStep(n: nat)
    requires n >= 3
    ensures (n - 3) % 3 == n % 3
  {
    ModThreeShift(n - 3, 1);
  }

  /** The last three characters of a longer string are one group, preceded
      by a separator. */
  lemma GroupedLastGroup(d: string)
    requires |d| > 3
    ensures Grouped(d, |d|) == Grouped(d, |d| - 3) + [','] + d[|d| - 3..]
  {
    var n := |d|;
    var a, x, y, z := Grouped(d, n - 3), d[n - 3], d[n - 2], d[n - 1];
    var g2 := Grouped(d, n - 2);
    var g1 := Grouped(d, n - 1);
    assert g2 == a + [',', x] by { assert SepBefore(n, n - 3); }
    assert g1 == g2 + [y] by { assert !SepBefore(n, n - 2); }
    assert Grouped(d, n) == g1 + [z] by { assert !SepBefore(n, n - 1); }
    LastThreeSlice(d);
    LastThree(a, x, y, z, d[n - 3..]);
  }

  lemma LastThreeSlice(d: string)
    requires |d| >= 3
    ensures d[|d| - 3..] == [d[|d| - 3], d[|d| - 2], d[|d| - 1]]
  {
  }

  lemma GroupedStep(d: string, j: nat)
    requires j < |d|
    ensures Grouped(d, j + 1) == Grouped(d, j) + Piece(d, j)
  {
  }

  lemma LastThree(a: string, x: char, y: char, z: char, t: string)
    requires t == [x, y, z]
    ensures a + [',', x] + [y] + [z] == a + [','] + t
  {
  }

  /** Commas removed. */
  function StripCommas(s: string): string
  {
    Filter(s, c => c != ',')
  }

  /** Removing the separators gives back the digits. */
  lemma {:induction false} GroupThousandsStrips(d: string)
    requires ',' !in d
    ensures StripCommas(GroupThousands(d)) == d
    decreases |d|
  {
    if |d| <= 3 {
      FilterAll(d, c => c != ',');
    } else {
      var e, t := d[..|d| - 3], d[|d| - 3..];
      assert d == e + t;
      GroupThousandsStrips(e);
      FilterConcat(GroupThousands(e) + [','], t, c => c != ',');
      FilterConcat(GroupThousands(e), [','], c => c != ',');
      FilterAll(t, c => c != ',');
      assert Filter([','], c => c != ',') == [];
    }
  }

  /** A separator is never first or last, and never next to another one. */
  lemma {:induction false} GroupThousandsShape(d: string)
    requires ',' !in d
    ensures |GroupThousands(d)| == |d| + (if |d| == 0 then 0 else (|d| - 1) / 3)
    ensures |d| > 0 ==> GroupThousands(d)[0] == d[0] && GroupThousands(d)[|GroupThousands(d)| - 1] == d[|d| - 1]
    decreases |d|
  {
    if |d| > 3 {
      GroupThousandsShape(d[..|d| - 3]);
    }
  }

  /** Counting from the first full group (`i = i1 - mod`) and counting the
      digits still to come (`|d| - i1`) put the separators in the same
      places. */
  lemma SeparatorRule(n: nat, mod: nat, i1: nat)
    requires mod == n % 3 && mod <= i1 <= n
    ensures ((i1 - mod) % 3 == 0 && i1 != 0) <==> SepBefore(n, i1)
  {
  }

  /** The `n % 3` leading digits are copied without separators. */
  lemma HeadHasNoSeparator(n: nat, i: nat)
    requires i < n % 3
    ensures !SepBefore(n, i)
  {
  }

  /** legible_1: copies the sign, then groups the digits after it. */
  method LegibleOne(repr: string) returns (out: string)
    ensures out == Legible(repr)
  {
    var sign: string := [];
    var d := repr;
    if |d| > 0 && d[0] == '-' {
      sign := ['-'];
      d := d[1..];
    }
    var grouped := GroupDigits(d);
    out := sign + grouped;
  }

  /** The two loops of legible_1: the `|d| % 3` leading digits are copied
      as they are, then every later digit is copied, with a separator
      before every third one. */
  method GroupDigits(d: string) returns (out: string)
    ensures out == GroupThousands(d)
  {
    out := [];
    var mod := |d| % 3;
    var i := 0;
    while i < mod
      invariant 0 <= i <= mod
      invariant out == Grouped(d, i)
    {
      HeadHasNoSeparator(|d|, i);
      GroupedStep(d, i);
      out := out + [d[i]];
      i := i + 1;
    }
    var i1 := i;
    i := 0;
    while i1 < |d|
      invariant mod <= i1 <= |d| && i == i1 - mod
      invariant out == Grouped(d, i1)
    {
      SeparatorRule(|d|, mod, i1);
      GroupedStep(d, i1);
      if i % 3 == 0 && i1 != 0 {
        assert Piece(d, i1) == [',', d[i1]];
        out := out + [','];
        out := out + [d[i1]];
        assert out == Grouped(d, i1) + [',', d[i1]];
      } else {
        assert Piece(d, i1) == [d[i1]];
        out := out + [d[i1]];
      }
      i := i + 1;
      i1 := i1 + 1;
    }
    GroupedIsGroupThousands(d);
  }

  /** legible: the number printed by number_to_string, then grouped. */
  method LegibleNumber(l: int) returns (out: string)
    requires IsWgint(l)
    ensures out == Legible(Decimal(l))
  {
    var inbuf := new char[24];
    var p := NumberToString(inbuf, l);
    out := LegibleOne(inbuf[..p]);
  }

  /** The separators in legible's output are exactly the inserted ones:
      removing them gives back number_to_string's text. */
  lemma LegibleStrips(l: int)
    ensures StripCommas(Legible(Decimal(l))) == Decimal(l)
  {
    var s := Decimal(l);
    DigitsRoundTrip(if l < 0 then -l else l);
    var m := if l < 0 then -l else l;
    PaddedFacts(m, NumLen(m));
    assert ',' !in Digits(m);
    if l < 0 {
      assert s[1..] == Digits(m);
      GroupThousandsStrips(Digits(m));
      FilterConcat(['-'], GroupThousands(Digits(m)), c => c != ',');
      assert Filter(['-'], c => c != ',') == ['-'];
    } else {
      GroupThousandsStrips(Digits(m));
    }
  }

  lemma LegibleExample()
    ensures Legible("-1234567") == "-1,234,567"
  {
    var d := "1234567";
    assert "-1234567"[1..] == d;
    GroupThousandsExample();
    assert ['-'] + "1,234,567" == "-1,234,567";
  }

  lemma GroupThousandsExample()
    ensures GroupThousands("1234567") == "1,234,567"
  {
    var d := "1234567";
    assert d[..4] == "1234" && d[4..] == "567";
    assert GroupThousands(d) == GroupThousands("1234") + [','] + "567";
    assert "1234"[..1] == "1" && "1234"[1..] == "234";
    assert GroupThousands("1234") == "1" + [','] + "234";
    assert "1" + [','] + "234" + [','] + "567" == "1,234,567";
  }
}
