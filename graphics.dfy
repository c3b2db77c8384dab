// src/graphics.c: what the text helpers of the Genesis front end write to
// the VDP's plane A. Every put_tile call is recorded, in order, in the trace
// of a PlaneA object; the port writes that would carry it (the VRAM address
// command and the data word) are given by VramAddr and Attr.
module Graphics {
  import opened Defs
  import opened AsmText
  import opened Numerals

  // ---------------------------------------------------------------------
  // put_tile

  /** One put_tile call: the cell and the tile and palette written there. */
  datatype Put = Put(x: int, y: int, tile: int, pal: int)

  const PLANE_A: int := 0xC000

  /** put_tile's uint16_t VRAM address of cell (x, y): plane A holds 64
    * two-byte entries per row. */
  function VramAddr(x: int, y: int): (a: int)
    ensures 0 <= a < 0x1_0000
  {
    (PLANE_A + (y * 64 + x) * 2) % 0x1_0000
  }

  /** On the 64 x 32 plane a cell's address is its two-byte slot in the
    * name table at 0xC000, and the address gives the cell back. */
  lemma CellAddress(x: int, y: int)
    requires 0 <= x < 64 && 0 <= y < 32
    ensures VramAddr(x, y) == PLANE_A + 2 * (64 * y + x)
    ensures PLANE_A <= VramAddr(x, y) < 0xD000 && VramAddr(x, y) % 2 == 0
    ensures (VramAddr(x, y) - PLANE_A) / 2 % 64 == x
    ensures (VramAddr(x, y) - PLANE_A) / 2 / 64 == y
  {
  }

  /** Two cells of the plane never share an address. */
  lemma CellsDistinct(x: int, y: int, x': int, y': int)
    requires 0 <= x < 64 && 0 <= y < 32 && 0 <= x' < 64 && 0 <= y' < 32
    requires (x, y) != (x', y')
    ensures VramAddr(x, y) != VramAddr(x', y')
  {
    CellAddress(x, y);
    CellAddress(x', y');
  }

  /** tile | (pal << 13) on 16 bits. */
  function AttrBits(tile: bv16, pal: bv16): bv16
  {
    tile | (pal << 13)
  }

  /** put_tile's uint16_t attribute word: the int expression cut to 16 bits. */
  function Attr(tile: int, pal: int): bv16
  {
    AttrBits((tile % 0x1_0000) as bv16, (pal % 0x1_0000) as bv16)
  }

  /** A tile below 0x2000 and a palette below 8 come back out of the word:
    * the tile in the low 13 bits, the palette in the top three. */
  lemma AttrFields(tile: bv16, pal: bv16)
    requires tile < 0x2000 && pal < 8
    ensures AttrBits(tile, pal) & 0x1FFF == tile
    ensures AttrBits(tile, pal) >> 13 == pal
  {
  }

  /** The port writes of one call: the address set, then the data word. */
  function Write(p: Put): (w: (int, bv16))
    ensures w.0 == VramAddr(p.x, p.y) && w.1 == Attr(p.tile, p.pal)
  {
    (VramAddr(p.x, p.y), Attr(p.tile, p.pal))
  }

  // ---------------------------------------------------------------------
  // draw_char and rows of characters

  /** draw_char writes only characters 32 to 127. */
  predicate Printable(c: int) { 32 <= c < 128 }

  /** The put_tile calls of draw_char(x, y, c, pal). */
  function CharPuts(x: int, y: int, c: int, pal: int): seq<Put>
  {
    if Printable(c) then [Put(x, y, c, pal)] else []
  }

  /** The character codes of a string. */
  function Codes(s: String): (r: seq<int>)
    ensures |r| == |s| && forall i :: 0 <= i < |s| ==> r[i] == s[i] as int
  {
    if s == [] then [] else [s[0] as int] + Codes(s[1..])
  }

  lemma {:induction false} CodesAppend(a: String, b: String)
    ensures Codes(a + b) == Codes(a) + Codes(b)
  {
  }

  /** draw_char of each code in turn, one column to the right each time. */
  function Row(x: int, y: int, codes: seq<int>, pal: int): seq<Put>
    decreases codes
  {
    if codes == [] then [] else CharPuts(x, y, codes[0], pal) + Row(x + 1, y, codes[1..], pal)
  }

  lemma {:induction false} RowAppend(x: int, y: int, codes: seq<int>, c: int, pal: int)
    ensures Row(x, y, codes + [c], pal) == Row(x, y, codes, pal) + CharPuts(x + |codes|, y, c, pal)
    decreases codes
  {
    if codes != [] {
      assert (codes + [c])[1..] == codes[1..] + [c];
      RowAppend(x + 1, y, codes[1..], c, pal);
    }
  }

  /** A row of printable codes puts code i at column x + i, and nothing else. */
  lemma {:induction false} PrintableRow(x: int, y: int, codes: seq<int>, pal: int)
    requires forall i :: 0 <= i < |codes| ==> Printable(codes[i])
    ensures |Row(x, y, codes, pal)| == |codes|
    ensures forall i :: 0 <= i < |codes| ==> Row(x, y, codes, pal)[i] == Put(x + i, y, codes[i], pal)
    decreases codes
  {
    if codes != [] {
      PrintableRow(x + 1, y, codes[1..], pal);
    }
  }

  lemma {:induction false} RowConcat(x: int, y: int, a: seq<int>, b: seq<int>, pal: int)
    ensures Row(x, y, a + b, pal) == Row(x, y, a, pal) + Row(x + |a|, y, b, pal)
    decreases a
  {
    if a != [] {
      assert (a + b)[1..] == a[1..] + b;
      assert (a + b)[0] == a[0];
      RowConcat(x + 1, y, a[1..], b, pal);
      SeqAssoc(CharPuts(x, y, a[0], pal), Row(x + 1, y, a[1..], pal), Row(x + |a|, y, b, pal));
    } else {
      assert a + b == b;
    }
  }

  /** Whatever the codes, a row stays on its line, within its columns, in its
    * palette, and writes only printable tiles. */
  lemma {:induction false} RowBounds(x: int, y: int, codes: seq<int>, pal: int)
    ensures forall p :: p in Row(x, y, codes, pal) ==>
      p.y == y && x <= p.x < x + |codes| && p.pal == pal && Printable(p.tile)
    decreases codes
  {
    if codes != [] {
      RowBounds(x + 1, y, codes[1..], pal);
    }
  }

  /** The characters of a C string: those before the first NUL. */
  function CString(s: String): (r: String)
    ensures |r| <= |s| && r == s[..|r|] && '\0' !in r
    ensures |r| == |s| || s[|r|] == '\0'
  {
    if s == [] || s[0] == '\0' then [] else [s[0]] + CString(s[1..])
  }

  // ---------------------------------------------------------------------
  // draw_number

  /** draw_number's table of powers: 10000, 1000, 100, 10 and 1. */
  function Power(i: nat): (p: nat)
    requires i < 5
    ensures p > 0 && (i == 4 <==> p == 1)
  {
    if i == 0 then 10000 else if i == 1 then 1000 else if i == 2 then 100 else if i == 3 then 10 else 1
  }

  /** n with its last j decimal digits taken off. */
  function Shift(n: nat, j: nat): nat
  {
    if j == 0 then n else Shift(n / 10, j - 1)
  }

  /** The decimal digit of n at position j, the units being position 0. */
  function Nth(n: nat, j: nat): (d: nat)
    ensures d < 10
  {
    Shift(n, j) % 10
  }

  /** '0' + digit, stored in a char. */
  function DigitCode(d: nat): int
  {
    ToInt8('0' as int + d)
  }

  /** The characters for the k low positions of n, high to low, from the
    * first nonzero digit on unless a digit was already written. */
  function Run(n: nat, k: nat, started: bool): seq<int>
  {
    if k == 0 then []
    else
      var d := Nth(n, k - 1);
      (if d > 0 || started then [DigitCode(d)] else []) + Run(n, k - 1, started || d > 0)
  }

  /** Some digit among the k low positions of n is nonzero. */
  predicate Any(n: nat, k: nat)
  {
    k > 0 && (Nth(n, k - 1) > 0 || Any(n, k - 1))
  }

  /** What the subtraction loop counts at step i: how often Power(i) fits in
    * what is left. Nothing above the first step caps it, so there it is n
    * with four digits taken off, which reaches 10 from 100000 on. */
  function StepDigit(n: nat, i: nat): nat
    requires i < 5
  {
    if i == 0 then Shift(n, 4) else Nth(n, 4 - i)
  }

  /** What is left of n before step i. */
  function Left(n: nat, i: nat): nat
    requires i <= 5
  {
    if i == 0 then n else if i == 1 then n % 10000 else if i == 2 then n % 1000
    else if i == 3 then n % 100 else if i == 4 then n % 10 else 0
  }

  /** The characters the steps from i on store: '0' + digit once a nonzero
    * digit has been seen. */
  function Steps(n: nat, i: nat, started: bool): seq<int>
    requires i <= 5
    decreases 5 - i
  {
    if i == 5 then []
    else
      var d := StepDigit(n, i);
      (if d > 0 || started then [DigitCode(d)] else []) + Steps(n, i + 1, started || d > 0)
  }

  /** The characters draw_number writes for num. */
  function NumberCodes(num: int): seq<int>
  {
    var n := if num < 0 then -num else num;
    (if num < 0 then ['-' as int] else [])
    + (if n == 0 then ['0' as int] else Steps(n, 0, false))
  }

  /** Euclidean division by a power of ten is unique. */
  lemma DivMod(a: int, p: int, q: int, r: int)
    requires p == 10000 || p == 1000 || p == 100 || p == 10
    requires 0 <= r < p && a == p * q + r
    ensures a / p == q && a % p == r
  {
  }

  lemma ShiftFour(n: nat)
    ensures Shift(n, 1) == n / 10 && Shift(n, 2) == n / 10 / 10
    ensures Shift(n, 3) == n / 10 / 10 / 10 && Shift(n, 4) == n / 10 / 10 / 10 / 10
  {
    var m1 := n / 10;
    var m2 := m1 / 10;
    var m3 := m2 / 10;
    assert Shift(m3, 1) == Shift(m3 / 10, 0);
    assert Shift(m2, 2) == Shift(m3, 1);
    assert Shift(m1, 3) == Shift(m2, 2);
  }

  /** One step of the subtraction loop: when digit copies of Power(i) have
    * been taken from what is left and less than Power(i) remains, digit is
    * the step's digit and the remainder is what is left for the next step. */
  lemma StepFacts(n: nat, i: nat, digit: int, r: int)
    requires i < 5 && 0 <= r < Power(i) && digit * Power(i) + r == Left(n, i)
    ensures digit == StepDigit(n, i) && r == Left(n, i + 1)
  {
    ShiftFour(n);
    var m1 := n / 10;
    var m2 := m1 / 10;
    var m3 := m2 / 10;
    var m4 := m3 / 10;
    var a0, a1, a2, a3 := n % 10, m1 % 10, m2 % 10, m3 % 10;
    assert n == 10000 * m4 + 1000 * a3 + 100 * a2 + 10 * a1 + a0;
    DivMod(n, 10000, m4, 1000 * a3 + 100 * a2 + 10 * a1 + a0);
    DivMod(n, 1000, 10 * m4 + a3, 100 * a2 + 10 * a1 + a0);
    DivMod(n, 100, 100 * m4 + 10 * a3 + a2, 10 * a1 + a0);
    if i == 0 {
      DivMod(n, 10000, digit, r);
    } else if i == 1 {
      DivMod(Left(n, 1), 1000, digit, r);
      DivMod(Left(n, 1), 1000, a3, 100 * a2 + 10 * a1 + a0);
    } else if i == 2 {
      DivMod(Left(n, 2), 100, digit, r);
      DivMod(Left(n, 2), 100, a2, 10 * a1 + a0);
    } else if i == 3 {
      DivMod(Left(n, 3), 10, digit, r);
      DivMod(Left(n, 3), 10, a1, a0);
    }
  }

  /** After the first step, the steps are the run over the lower positions. */
  lemma {:induction false} StepsRun(n: nat, i: nat, started: bool)
    requires 1 <= i <= 5
    ensures Steps(n, i, started) == Run(n, 5 - i, started)
    decreases 5 - i
  {
    if i < 5 {
      var d := StepDigit(n, i);
      StepsRun(n, i + 1, started || d > 0);
    }
  }

  lemma {:induction false} ShiftZero(j: nat)
    ensures Shift(0, j) == 0
  {
    if j > 0 {
      ShiftZero(j - 1);
    }
  }

  lemma {:induction false} RunZero(k: nat)
    ensures Run(0, k, false) == []
  {
    if k > 0 {
      ShiftZero(k - 1);
      RunZero(k - 1);
    }
  }

  /** Whether a digit is nonzero, read from the units up. */
  lemma {:induction false} AnyBottom(n: nat, k: nat)
    requires k > 0
    ensures Any(n, k) == (n % 10 > 0 || Any(n / 10, k - 1))
  {
    if k > 1 {
      AnyBottom(n, k - 1);
    }
  }

  /** A positive number that fits in k digits has a nonzero digit there. */
  lemma {:induction false} AnyPositive(n: nat, k: nat)
    requires n > 0 && Shift(n, k) == 0
    ensures Any(n, k)
  {
    AnyBottom(n, k);
    if n % 10 == 0 {
      AnyPositive(n / 10, k - 1);
    }
  }

  /** Taking the units off: the run of n is the run of n / 10, then the units
    * digit unless nothing has been written. */
  lemma {:induction false} RunBack(n: nat, k: nat, started: bool)
    requires k > 0
    ensures Run(n, k, started) ==
      Run(n / 10, k - 1, started) + (if started || Any(n, k) then [DigitCode(n % 10)] else [])
  {
    if k > 1 {
      var d := Nth(n, k - 1);
      assert d == Nth(n / 10, k - 2);
      RunBack(n, k - 1, started || d > 0);
      SeqAssoc(if d > 0 || started then [DigitCode(d)] else [], Run(n / 10, k - 2, started || d > 0),
        if started || d > 0 || Any(n, k - 1) then [DigitCode(n % 10)] else []);
    }
  }

  lemma SeqAssoc<T>(a: seq<T>, b: seq<T>, c: seq<T>)
    ensures a + (b + c) == (a + b) + c
  {
  }

  /** A positive number that fits in k digits runs to its decimal digits. */
  lemma {:induction false} RunDecimal(n: nat, k: nat)
    requires n > 0 && Shift(n, k) == 0
    ensures Run(n, k, false) == Codes(Decimal(n))
  {
    RunBack(n, k, false);
    AnyPositive(n, k);
    if n < 10 {
      RunZero(k - 1);
    } else {
      RunDecimal(n / 10, k - 1);
      CodesAppend(Decimal(n / 10), [DigitChar(n % 10)]);
    }
  }

  /** For |num| < 100000, draw_number writes "%d" of num: the decimal digits
    * without leading zeros, after a minus sign when num is negative. */
  lemma NumberDecimal(num: int)
    requires -100000 < num < 100000
    ensures NumberCodes(num) == Codes(SignedDecimal(num))
  {
    var n := if num < 0 then -num else num;
    if n > 0 {
      ShiftFour(n);
      ShiftFour(n / 10);
      var d := StepDigit(n, 0);
      assert d == Nth(n, 4);
      StepsRun(n, 1, d > 0);
      RunDecimal(n, 5);
    }
    if num < 0 {
      CodesAppend("-", Decimal(n));
    }
  }

  /** From 100000 on the first digit overflows past '9': 100000 is written
    * as ":0000". */
  lemma NumberOverflow()
    ensures NumberCodes(100000) == Codes(":0000")
  {
  }

  // ---------------------------------------------------------------------
  // draw_number_3d

  /** draw_number_3d clamps to 0..999. */
  function Clamp999(num: int): (v: nat)
    ensures v <= 999
    ensures 0 <= num <= 999 ==> v == num
  {
    if num < 0 then 0 else if num > 999 then 999 else num
  }

  /** The three characters draw_number_3d writes: hundreds and tens, each a
    * space while it and everything before it are zero, then the units. */
  function Number3dCodes(num: int): seq<int>
  {
    var v := Clamp999(num);
    var h, t, o := v / 100, v % 100 / 10, v % 10;
    (if h > 0 then ['0' as int + h, '0' as int + t]
     else if t > 0 then [' ' as int, '0' as int + t]
     else [' ' as int, ' ' as int])
    + ['0' as int + o]
  }

  function Spaces(n: nat): (s: String)
    ensures |s| == n && forall i :: 0 <= i < n ==> s[i] == ' '
  {
    if n == 0 then [] else [' '] + Spaces(n - 1)
  }

  /** The hundreds, tens and units of a number below 1000. */
  lemma ThreeDigits(v: nat)
    requires v <= 999
    ensures var h, t, o := v / 10 / 10, v / 10 % 10, v % 10;
      h < 10 && v / 100 == h && v % 100 / 10 == t && v == 100 * h + 10 * t + o
  {
    var h, t, o := v / 10 / 10, v / 10 % 10, v % 10;
    DivMod(v, 100, h, 10 * t + o);
    DivMod(10 * t + o, 10, t, o);
  }

  /** draw_number_3d writes the clamped number right-aligned in three cells:
    * its decimal digits after as many spaces as are left. */
  lemma Number3dText(num: int)
    ensures |Decimal(Clamp999(num))| <= 3
    ensures Number3dCodes(num) == Codes(Spaces(3 - |Decimal(Clamp999(num))|) + Decimal(Clamp999(num)))
  {
    var v := Clamp999(num);
    ThreeDigits(v);
    var h, t, o := v / 10 / 10, v / 10 % 10, v % 10;
    var text: String;
    if v >= 100 {
      assert Decimal(v / 10) == Decimal(h) + [DigitChar(t)];
      assert Decimal(v) == [DigitChar(h), DigitChar(t), DigitChar(o)];
      text := [DigitChar(h), DigitChar(t), DigitChar(o)];
      Codes3(DigitChar(h), DigitChar(t), DigitChar(o));
      assert Number3dCodes(num) == ['0' as int + h, '0' as int + t, '0' as int + o] == Codes(text);
    } else if v >= 10 {
      assert Decimal(v) == [DigitChar(t), DigitChar(o)];
      text := [' ', DigitChar(t), DigitChar(o)];
      Codes3(' ', DigitChar(t), DigitChar(o));
      assert Number3dCodes(num) == [' ' as int, '0' as int + t, '0' as int + o] == Codes(text);
    } else {
      assert Decimal(v) == [DigitChar(o)];
      text := [' ', ' ', DigitChar(o)];
      Codes3(' ', ' ', DigitChar(o));
      assert Number3dCodes(num) == [' ' as int, ' ' as int, '0' as int + o] == Codes(text);
    }
    assert Spaces(3 - |Decimal(v)|) + Decimal(v) == text;
  }

  lemma Codes3(a: char, b: char, c: char)
    ensures Codes([a, b, c]) == [a as int, b as int, c as int]
  {
  }

  /** Three characters in a row are three puts in adjacent cells. */
  lemma Row3(x: int, y: int, a: int, b: int, c: int, pal: int)
    ensures Row(x, y, [a, b, c], pal) == CharPuts(x, y, a, pal) + CharPuts(x + 1, y, b, pal) + CharPuts(x + 2, y, c, pal)
  {
    assert [a] + [b] == [a, b] && [a, b] + [c] == [a, b, c];
    RowAppend(x, y, [a, b], c, pal);
    RowAppend(x, y, [a], b, pal);
    assert Row(x, y, [a], pal) == CharPuts(x, y, a, pal) + Row(x + 1, y, [], pal);
  }

  // ---------------------------------------------------------------------
  // draw_hex and draw_hex_n

  /** The position of the first digit draw_hex writes: leading '0's are
    * skipped, but never the last digit. */
  function SkipZeros(s: String, start: nat): (k: nat)
    requires start < |s|
    ensures start <= k < |s|
    ensures forall j :: start <= j < k ==> s[j] == '0'
    ensures k == |s| - 1 || s[k] != '0'
    decreases |s| - start
  {
    if start < |s| - 1 && s[start] == '0' then SkipZeros(s, start + 1) else start
  }

  /** The first position from start on that is not a leading '0'. */
  lemma {:induction false} SkipZerosAt(s: String, start: nat, k: nat)
    requires start <= k < |s|
    requires forall j :: start <= j < k ==> s[j] == '0'
    requires k == |s| - 1 || s[k] != '0'
    ensures SkipZeros(s, start) == k
    decreases k - start
  {
    if start < k {
      SkipZerosAt(s, start + 1, k);
    }
  }

  /** The digits draw_hex writes for a 32-bit num. */
  function HexText(num: nat): String
  {
    var buf := FixedHex(num, 8);
    buf[SkipZeros(buf, 0)..]
  }

  lemma Pow16Eight()
    ensures Pow16(8) == 0x1_0000_0000
  {
    assert Pow16(2) == 0x100;
    assert Pow16(4) == 0x1_0000;
    assert Pow16(6) == 0x100_0000;
  }

  /** draw_hex writes num in upper-case hexadecimal with no leading zero,
    * and at least one digit: "0" for zero. */
  lemma HexTextValue(num: nat)
    requires num < 0x1_0000_0000
    ensures var r := HexText(num);
      1 <= |r| <= 8 && All(Hex, r) && HexValue(r) == num && (|r| > 1 ==> r[0] != '0')
  {
    var buf := FixedHex(num, 8);
    var k := SkipZeros(buf, 0);
    Pow16Eight();
    FixedHexValue(num, 8);
    SkippedZeros(buf, k);
    LeadingZeros(k, buf[k..]);
  }

  /** A string whose first k characters are '0' is k zeros and the rest. */
  lemma SkippedZeros(s: String, k: nat)
    requires k < |s| && All(Hex, s) && forall j :: 0 <= j < k ==> s[j] == '0'
    ensures s == Zeros(k) + s[k..] && All(Hex, s[k..])
  {
    ZerosChars(k);
    assert s[..k] == Zeros(k);
    assert s == s[..k] + s[k..];
  }

  lemma {:induction false} ZerosChars(z: nat)
    ensures forall j :: 0 <= j < z ==> Zeros(z)[j] == '0'
  {
    if z > 0 {
      ZerosChars(z - 1);
    }
  }

  /** The put_tile calls of draw_hex_n from digit i down to digit 0: the low
    * digit of v at column x + i, then the rest of v one column to the left. */
  function HexNFrom(x: int, y: int, v: nat, i: int, pal: int): seq<Put>
    decreases i + 1
  {
    if i < 0 then [] else CharPuts(x + i, y, UpperHexChar(v % 16) as int, pal) + HexNFrom(x, y, v / 16, i - 1, pal)
  }

  /** draw_hex_n writes the n-digit zero-padded form of num, its rightmost
    * digit first: the k-th call puts digit n - 1 - k at column x + n - 1 - k. */
  lemma {:induction false} HexNCells(x: int, y: int, v: nat, i: int, pal: int)
    requires i >= -1
    ensures var r := HexNFrom(x, y, v, i, pal);
      |r| == i + 1 &&
      forall k :: 0 <= k <= i ==> r[k] == Put(x + i - k, y, FixedHex(v, i + 1)[i - k] as int, pal)
    decreases i + 1
  {
    if i >= 0 {
      HexNCells(x, y, v / 16, i - 1, pal);
      var f := FixedHex(v, i + 1);
      assert f == FixedHex(v / 16, i) + [UpperHexChar(v % 16)];
    }
  }

  /** v with its last n hexadecimal digits taken off: v >> 4n. */
  function Above16(v: nat, n: nat): nat
  {
    if n == 0 then v else Above16(v / 16, n - 1)
  }

  lemma MulSixteen(p: int, a: int)
    ensures (16 * p) * a == 16 * (p * a)
  {
  }

  /** One call of draw_hex_n's loop: the low digit of v is put at column
    * x + i, and the rest of v is left for the columns before it. */
  lemma HexNNext(x: int, y: int, v: nat, i: int, pal: int, done: seq<Put>, full: seq<Put>)
    requires i >= 0 && full == done + HexNFrom(x, y, v, i, pal)
    ensures full == (done + CharPuts(x + i, y, "0123456789ABCDEF"[v % 16] as int, pal)) + HexNFrom(x, y, v / 16, i - 1, pal)
  {
    SeqAssoc(done, CharPuts(x + i, y, UpperHexChar(v % 16) as int, pal), HexNFrom(x, y, v / 16, i - 1, pal));
  }

  /** The n digits read back as the low part of num: what they leave out is
    * num with n digits taken off, times 16^n. */
  lemma {:induction false} HexNValue(num: nat, n: nat)
    ensures var f := FixedHex(num, n);
      All(Hex, f) && HexValue(f) < Pow16(n) && HexValue(f) + Pow16(n) * Above16(num, n) == num
  {
    if n > 0 {
      var f := FixedHex(num, n);
      var g := FixedHex(num / 16, n - 1);
      HexNValue(num / 16, n - 1);
      assert f[..n - 1] == g;
      assert forall i :: 0 <= i < n - 1 ==> f[i] == g[i];
      assert HexValue(f) == HexValue(g) * 16 + num % 16;
      var a, p := Above16(num / 16, n - 1), Pow16(n - 1);
      assert Pow16(n) == 16 * p && Above16(num, n) == a;
      MulSixteen(p, a);
    }
  }

  // ---------------------------------------------------------------------
  // draw_history

  /** A move history entry as draw_history reads it; graphics.c declares the
    * same struct as main.c: char word[16], uint16_t blanks, int16_t score
    * and equity, uint16_t frames, uint8_t player. */
  datatype HistoryEntry = HistoryEntry(word: String, blanks: nat, score: int, equity: int, frames: nat, player: nat)

  const HISTORY_ROWS: int := 28
  const HISTORY_COL: int := 18
  /** Hex digits of the equity and of the frame count. */
  const EQUITY_DIGITS: int := 3
  const FRAME_DIGITS: int := 4

  /** 1 << i. */
  function Pow2(i: nat): (p: nat)
    ensures p >= 1
  {
    if i == 0 then 1 else 2 * Pow2(i - 1)
  }

  /** m & (1 << j) != 0: bit j of m is set. */
  predicate BitSet(m: nat, j: nat)
  {
    if j == 0 then m % 2 == 1 else BitSet(m / 2, j - 1)
  }

  /** The palette of word cell j: 1 (grey) for a blank, 0 (white) otherwise. */
  function BlankPal(blanks: nat, j: nat): int
  {
    if BitSet(blanks, j) then 1 else 0
  }

  /** The index of the entry on the top row: the last HISTORY_ROWS entries
    * are the ones that fit. */
  function HistoryStart(count: int): nat
  {
    if count > HISTORY_ROWS then count - HISTORY_ROWS else 0
  }

  /** The word cells of row y from cell j on: the characters of the word in
    * their blank palette until the first NUL, spaces in palette 0 from there
    * (ended says a NUL has been seen). */
  function WordCells(y: int, word: String, blanks: nat, j: nat, ended: bool): seq<Put>
    requires j <= 9 && |word| >= 9
    decreases 9 - j
  {
    if j == 9 then []
    else if ended || word[j] == '\0' then
      CharPuts(HISTORY_COL + 1 + j, y, ' ' as int, 0) + WordCells(y, word, blanks, j + 1, true)
    else
      CharPuts(HISTORY_COL + 1 + j, y, word[j] as int, BlankPal(blanks, j)) + WordCells(y, word, blanks, j + 1, false)
  }

  /** The put_tile calls for one entry on row y: the player mark, nine word
    * cells, the score in three cells and a space (EntryLeft), then the
    * equity's low 16 bits as three hex digits, a space and the frames as
    * four hex digits (EntryRight). */
  function EntryPuts(y: int, e: HistoryEntry): seq<Put>
    requires |e.word| >= 9
  {
    EntryLeft(y, e) + EntryRight(y, e)
  }

  function EntryLeft(y: int, e: HistoryEntry): seq<Put>
    requires |e.word| >= 9
  {
    CharPuts(HISTORY_COL, y, if e.player == 0 then '>' as int else '<' as int, 0)
    + WordCells(y, e.word, e.blanks, 0, false)
    + Row(HISTORY_COL + 10, y, Number3dCodes(e.score), 0)
    + CharPuts(HISTORY_COL + 13, y, ' ' as int, 0)
  }

  function EntryRight(y: int, e: HistoryEntry): seq<Put>
  {
    HexNFrom(HISTORY_COL + 14, y, e.equity % 0x1_0000, EQUITY_DIGITS - 1, 0)
    + CharPuts(HISTORY_COL + 17, y, ' ' as int, 0)
    + HexNFrom(HISTORY_COL + 18, y, e.frames, FRAME_DIGITS - 1, 0)
  }

  /** The first n cells of a cleared row y: spaces in palette 0 from
    * column HISTORY_COL on. */
  function SpaceCells(y: int, n: nat): seq<Put>
  {
    seq(n, k => Put(HISTORY_COL + k, y, ' ' as int, 0))
  }

  /** A cleared sidebar row: spaces from column HISTORY_COL to column 39. */
  function ClearedRow(y: int): seq<Put>
  {
    SpaceCells(y, 40 - HISTORY_COL)
  }

  /** Every entry carries its 16-character word buffer. */
  predicate Buffers(hist: seq<HistoryEntry>)
  {
    forall k :: 0 <= k < |hist| ==> |hist[k].word| == 16
  }

  /** Row i of the sidebar: entry HistoryStart(count) + i while there is
    * one, cleared after the last. */
  function RowPuts(hist: seq<HistoryEntry>, count: int, i: nat): seq<Put>
    requires Buffers(hist) && count <= |hist|
  {
    var idx := HistoryStart(count) + i;
    if idx < count then EntryPuts(i, hist[idx]) else ClearedRow(i)
  }

  /** Rows i to HISTORY_ROWS - 1 of the sidebar, top to bottom. */
  function HistoryRows(hist: seq<HistoryEntry>, count: int, i: nat): seq<Put>
    requires Buffers(hist) && count <= |hist| && i <= HISTORY_ROWS
    decreases HISTORY_ROWS - i
  {
    if i == HISTORY_ROWS then [] else RowPuts(hist, count, i) + HistoryRows(hist, count, i + 1)
  }

  /** The word cell j of row y as the sidebar shows it: the character in
    * its blank palette while j is before the word's NUL, a space in
    * palette 0 from there on. */
  function WordCell(y: int, word: String, blanks: nat, j: nat): Put
  {
    if j < |CString(word)| then Put(HISTORY_COL + 1 + j, y, word[j] as int, BlankPal(blanks, j))
    else Put(HISTORY_COL + 1 + j, y, ' ' as int, 0)
  }

  /** From cell j on, the word loop puts exactly the cells WordCell says,
    * provided the characters it draws are printable; ended records whether
    * the NUL lies before cell j. */
  lemma {:induction false} WordCellsFrom(y: int, word: String, blanks: nat, j: nat, ended: bool)
    requires j <= 9 <= |word|
    requires ended <==> |CString(word)| < j
    requires forall k :: j <= k < 9 && k < |CString(word)| ==> Printable(word[k] as int)
    ensures |WordCells(y, word, blanks, j, ended)| == 9 - j
    ensures forall k :: j <= k < 9 ==> WordCells(y, word, blanks, j, ended)[k - j] == WordCell(y, word, blanks, k)
    decreases 9 - j
  {
    if j < 9 {
      var c := CString(word);
      var stop := ended || word[j] == '\0';
      assert !stop ==> |c| != j;
      WordCellsFrom(y, word, blanks, j + 1, stop);
      var head := if stop then CharPuts(HISTORY_COL + 1 + j, y, ' ' as int, 0)
        else CharPuts(HISTORY_COL + 1 + j, y, word[j] as int, BlankPal(blanks, j));
      var rest := WordCells(y, word, blanks, j + 1, stop);
      assert WordCells(y, word, blanks, j, ended) == head + rest;
      assert head == [WordCell(y, word, blanks, j)];
      forall k | j < k < 9
        ensures (head + rest)[k - j] == WordCell(y, word, blanks, k)
      {
        assert (head + rest)[k - j] == rest[k - (j + 1)];
      }
    }
  }

  /** The nine word cells of an entry: cell j is at column HISTORY_COL + 1 + j
    * and shows the word's character j in palette 1 exactly when bit j of
    * the blanks mask is set, or a space in palette 0 once the word ended. */
  lemma WordCellsText(y: int, word: String, blanks: nat)
    requires |word| >= 9
    requires forall k :: 0 <= k < 9 && k < |CString(word)| ==> Printable(word[k] as int)
    ensures |WordCells(y, word, blanks, 0, false)| == 9
    ensures forall j :: 0 <= j < 9 ==> WordCells(y, word, blanks, 0, false)[j] == WordCell(y, word, blanks, j)
  {
    WordCellsFrom(y, word, blanks, 0, false);
  }

  /** Whatever the word, its cells stay between columns HISTORY_COL + 1 + j
    * and HISTORY_COL + 9 of row y, in palette 0 or 1. */
  lemma {:induction false} WordCellsBounds(y: int, word: String, blanks: nat, j: nat, ended: bool)
    requires j <= 9 <= |word|
    ensures forall p :: p in WordCells(y, word, blanks, j, ended) ==>
      p.y == y && HISTORY_COL + 1 + j <= p.x < HISTORY_COL + 10 && 0 <= p.pal <= 1 && Printable(p.tile)
    decreases 9 - j
  {
    if j < 9 {
      WordCellsBounds(y, word, blanks, j + 1, ended || word[j] == '\0');
    }
  }

  /** draw_hex_n stays between columns x and x + i of row y. */
  lemma {:induction false} HexNBounds(x: int, y: int, v: nat, i: int, pal: int)
    ensures forall p :: p in HexNFrom(x, y, v, i, pal) ==>
      p.y == y && x <= p.x <= x + i && p.pal == pal && Printable(p.tile)
    decreases i + 1
  {
    if i >= 0 {
      HexNBounds(x, y, v / 16, i - 1, pal);
    }
  }

  /** An entry's row stays on line y, between columns HISTORY_COL and 39,
    * in palette 0 or 1. */
  lemma EntryInSidebar(y: int, e: HistoryEntry)
    requires |e.word| >= 9
    ensures forall p :: p in EntryPuts(y, e) ==>
      p.y == y && HISTORY_COL <= p.x < 40 && 0 <= p.pal <= 1 && Printable(p.tile)
  {
    LeftInSidebar(y, e);
    RightInSidebar(y, e);
  }

  lemma LeftInSidebar(y: int, e: HistoryEntry)
    requires |e.word| >= 9
    ensures forall p :: p in EntryLeft(y, e) ==>
      p.y == y && HISTORY_COL <= p.x < HISTORY_COL + 14 && 0 <= p.pal <= 1 && Printable(p.tile)
  {
    WordCellsBounds(y, e.word, e.blanks, 0, false);
    RowBounds(HISTORY_COL + 10, y, Number3dCodes(e.score), 0);
  }

  lemma RightInSidebar(y: int, e: HistoryEntry)
    ensures forall p :: p in EntryRight(y, e) ==>
      p.y == y && HISTORY_COL + 14 <= p.x < 40 && p.pal == 0 && Printable(p.tile)
  {
    HexNBounds(HISTORY_COL + 14, y, e.equity % 0x1_0000, EQUITY_DIGITS - 1, 0);
    HexNBounds(HISTORY_COL + 18, y, e.frames, FRAME_DIGITS - 1, 0);
  }

  /** Every row of the sidebar stays on its own line, between columns
    * HISTORY_COL and 39, in palette 0 or 1. */
  lemma RowInSidebar(hist: seq<HistoryEntry>, count: int, i: nat)
    requires Buffers(hist) && count <= |hist|
    ensures forall p :: p in RowPuts(hist, count, i) ==>
      p.y == i && HISTORY_COL <= p.x < 40 && 0 <= p.pal <= 1 && Printable(p.tile)
  {
    var idx := HistoryStart(count) + i;
    if idx < count {
      EntryInSidebar(i, hist[idx]);
    }
  }

  /** draw_history draws nothing outside its HISTORY_ROWS lines and its
    * columns HISTORY_COL to 39. */
  lemma {:induction false} SidebarBounds(hist: seq<HistoryEntry>, count: int, i: nat)
    requires Buffers(hist) && count <= |hist| && i <= HISTORY_ROWS
    ensures forall p :: p in HistoryRows(hist, count, i) ==>
      i <= p.y < HISTORY_ROWS && HISTORY_COL <= p.x < 40 && 0 <= p.pal <= 1 && Printable(p.tile)
    decreases HISTORY_ROWS - i
  {
    if i < HISTORY_ROWS {
      RowInSidebar(hist, count, i);
      SidebarBounds(hist, count, i + 1);
    }
  }

  /** Which entry each row shows: with more than HISTORY_ROWS entries the
    * last HISTORY_ROWS, oldest at the top; otherwise entry i on row i while
    * there is one, and cleared rows below the last. */
  lemma HistoryWindow(hist: seq<HistoryEntry>, count: int, i: nat)
    requires Buffers(hist) && count <= |hist| && i < HISTORY_ROWS
    ensures count > HISTORY_ROWS ==> RowPuts(hist, count, i) == EntryPuts(i, hist[count - HISTORY_ROWS + i])
    ensures count <= HISTORY_ROWS && i < count ==> RowPuts(hist, count, i) == EntryPuts(i, hist[i])
    ensures count <= HISTORY_ROWS && count <= i ==> RowPuts(hist, count, i) == ClearedRow(i)
    ensures HistoryRows(hist, count, i) == RowPuts(hist, count, i) + HistoryRows(hist, count, i + 1)
  {
  }

  /** A cleared row is a space in palette 0 in each of the columns
    * HISTORY_COL to 39. */
  lemma ClearedCells(y: int)
    ensures |ClearedRow(y)| == 40 - HISTORY_COL
    ensures forall k :: 0 <= k < 40 - HISTORY_COL ==> ClearedRow(y)[k] == Put(HISTORY_COL + k, y, ' ' as int, 0)
  {
  }

  // ---------------------------------------------------------------------
  // The plane

  /** Plane A as the text helpers see it: the put_tile calls made so far. */
  class PlaneA {
    var puts: seq<Put>

    constructor ()
      ensures puts == []
    {
      puts := [];
    }

    /** put_tile: one more write of tile and palette to cell (x, y). */
    method PutTile(x: int, y: int, tile: int, pal: int)
      modifies this
      ensures puts == old(puts) + [Put(x, y, tile, pal)]
    {
      puts := puts + [Put(x, y, tile, pal)];
    }

    /** draw_char: a printable character is put, anything else is dropped. */
    method DrawChar(x: int, y: int, c: int, pal: int)
      modifies this
      ensures puts == old(puts) + CharPuts(x, y, c, pal)
    {
      if 32 <= c < 128 {
        PutTile(x, y, c, pal);
      }
    }

    /** draw_string: each character up to the NUL, left to right. */
    method DrawString(x: int, y: int, str: String, pal: int)
      modifies this
      ensures puts == old(puts) + Row(x, y, Codes(CString(str)), pal)
    {
      ghost var codes := Codes(CString(str));
      var i := 0;
      while i < |str| && str[i] != '\0'
        invariant 0 <= i <= |codes|
        invariant puts == old(puts) + Row(x, y, codes[..i], pal)
      {
        assert codes[i] == str[i] as int;
        DrawChar(x + i, y, str[i] as int, pal);
        assert codes[..i + 1] == codes[..i] + [codes[i]];
        RowAppend(x, y, codes[..i], codes[i], pal);
        SeqAssoc(old(puts), Row(x, y, codes[..i], pal), CharPuts(x + i, y, codes[i], pal));
        i := i + 1;
      }
      assert codes[..i] == codes;
    }

    /** draw_number: the digits by repeated subtraction into a buffer, then
      * the sign and the buffer. num is never INT_MIN, whose negation the C
      * code cannot form. */
    method DrawNumber(x: int, y: int, num: int, pal: int)
      requires -0x8000_0000 < num < 0x8000_0000
      modifies this
      ensures puts == old(puts) + Row(x, y, NumberCodes(num), pal)
    {
      var buf := new int[12];
      var pos, neg := FillNumber(buf, num);
      ghost var digits := buf[..pos];
      var col := x;
      if neg {
        DrawChar(col, y, '-' as int, pal);
        col := col + 1;
      }
      ghost var sign := if neg then CharPuts(x, y, '-' as int, pal) else [];
      assert puts == old(puts) + sign;
      PrintBuf(col, y, buf, pos, pal);
      SignedRow(x, y, neg, digits, pal);
      SeqAssoc(old(puts), sign, Row(col, y, digits, pal));
    }

    /** draw_number's print loop: buf[0..pos) from column x on. */
    method PrintBuf(x: int, y: int, buf: array<int>, pos: nat, pal: int)
      requires pos <= buf.Length
      modifies this
      ensures puts == old(puts) + Row(x, y, buf[..pos], pal)
    {
      var k := 0;
      while k < pos
        invariant 0 <= k <= pos
        invariant puts == old(puts) + Row(x, y, buf[..k], pal)
      {
        DrawChar(x + k, y, buf[k], pal);
        RowAppend(x, y, buf[..k], buf[k], pal);
        assert buf[..k + 1] == buf[..k] + [buf[k]];
        k := k + 1;
      }
    }

    /** draw_number_3d: clamp, hundreds and tens by repeated subtraction,
      * then three cells. */
    method DrawNumber3d(x: int, y: int, num: int, pal: int)
      modifies this
      ensures puts == old(puts) + Row(x, y, Number3dCodes(num), pal)
    {
      var n := num;
      if n < 0 {
        n := 0;
      }
      if n > 999 {
        n := 999;
      }
      var hundreds := 0;
      while n >= 100
        invariant 0 <= n && n + 100 * hundreds == Clamp999(num)
      {
        hundreds := hundreds + 1;
        n := n - 100;
      }
      var tens := 0;
      while n >= 10
        invariant 0 <= n && n + 10 * tens + 100 * hundreds == Clamp999(num) && n + 10 * tens < 100
      {
        tens := tens + 1;
        n := n - 10;
      }
      ThreeDigits(Clamp999(num));
      DivMod(Clamp999(num), 100, hundreds, 10 * tens + n);
      DivMod(10 * tens + n, 10, tens, n);
      Row3(x, y, Number3dCodes(num)[0], Number3dCodes(num)[1], Number3dCodes(num)[2], pal);
      assert Number3dCodes(num) == [Number3dCodes(num)[0], Number3dCodes(num)[1], Number3dCodes(num)[2]];
      if hundreds > 0 {
        DrawChar(x, y, '0' as int + hundreds, pal);
        DrawChar(x + 1, y, '0' as int + tens, pal);
      } else if tens > 0 {
        DrawChar(x, y, ' ' as int, pal);
        DrawChar(x + 1, y, '0' as int + tens, pal);
      } else {
        DrawChar(x, y, ' ' as int, pal);
        DrawChar(x + 1, y, ' ' as int, pal);
      }
      DrawChar(x + 2, y, '0' as int + n, pal);
    }

    /** draw_hex: the eight nibbles into a buffer from the right, the
      * leading '0's skipped, the rest written. */
    method DrawHex(x: int, y: int, num: nat, pal: int)
      requires num < 0x1_0000_0000
      modifies this
      ensures puts == old(puts) + Row(x, y, Codes(HexText(num)), pal)
    {
      var buf := new char[8];
      FillHex(buf, num);
      var start := 0;
      while start < 7 && buf[start] == '0'
        invariant 0 <= start <= 7
        invariant forall j :: 0 <= j < start ==> buf[j] == '0'
      {
        start := start + 1;
      }
      SkipZerosAt(buf[..], 0, start);
      assert buf[start..] == HexText(num);
      PrintChars(x, y, buf, start, pal);
    }

    /** draw_hex's print loop: buf[start..8) from column x on. */
    method PrintChars(x: int, y: int, buf: array<char>, start: nat, pal: int)
      requires start <= buf.Length
      modifies this
      ensures puts == old(puts) + Row(x, y, Codes(buf[start..]), pal)
    {
      ghost var codes := Codes(buf[start..]);
      var k := start;
      while k < buf.Length
        invariant start <= k <= buf.Length
        invariant puts == old(puts) + Row(x, y, codes[..k - start], pal)
      {
        assert codes[k - start] == buf[k] as int;
        DrawChar(x + (k - start), y, buf[k] as int, pal);
        RowAppend(x, y, codes[..k - start], buf[k] as int, pal);
        assert codes[..k + 1 - start] == codes[..k - start] + [buf[k] as int];
        k := k + 1;
      }
      assert codes[..k - start] == codes;
    }

    /** draw_hex_n: n digits, the rightmost first, each at its own column. */
    method DrawHexN(x: int, y: int, num: nat, n: int, pal: int)
      modifies this
      ensures puts == old(puts) + HexNFrom(x, y, num, n - 1, pal)
    {
      ghost var full := old(puts) + HexNFrom(x, y, num, n - 1, pal);
      var v := num;
      var i := n - 1;
      while i >= 0
        invariant full == puts + HexNFrom(x, y, v, i, pal)
        decreases i + 1
      {
        var c := "0123456789ABCDEF"[v % 16];
        HexNNext(x, y, v, i, pal, puts, full);
        DrawChar(x + i, y, c as int, pal);
        v := v / 16;
        i := i - 1;
      }
      assert HexNFrom(x, y, v, i, pal) == [];
    }

    /** draw_history: HISTORY_ROWS rows from the first entry that fits, one
      * entry per row, the rows after the last entry cleared. */
    method DrawHistory(hist: seq<HistoryEntry>, count: int)
      requires Buffers(hist) && count <= |hist|
      modifies this
      ensures puts == old(puts) + HistoryRows(hist, count, 0)
    {
      var start := 0;
      if count > HISTORY_ROWS {
        start := count - HISTORY_ROWS;
      }
      var i := 0;
      while i < HISTORY_ROWS
        invariant 0 <= i <= HISTORY_ROWS && start == HistoryStart(count)
        invariant puts + HistoryRows(hist, count, i) == old(puts) + HistoryRows(hist, count, 0)
      {
        DrawRow(hist, count, start, i);
        i := i + 1;
      }
      assert puts + [] == puts;
    }

    /** Row i of the sidebar: entry start + i, or a cleared row. */
    method DrawRow(hist: seq<HistoryEntry>, count: int, start: int, i: nat)
      requires Buffers(hist) && count <= |hist| && start == HistoryStart(count) && i < HISTORY_ROWS
      modifies this
      ensures puts + HistoryRows(hist, count, i + 1) == old(puts) + HistoryRows(hist, count, i)
    {
      SeqAssoc(puts, RowPuts(hist, count, i), HistoryRows(hist, count, i + 1));
      var y := i;
      var idx := start + i;
      if idx < count {
        DrawEntry(y, hist[idx]);
      } else {
        ClearRow(y);
      }
    }

    /** One history entry on row y. */
    method DrawEntry(y: int, e: HistoryEntry)
      requires |e.word| >= 9
      modifies this
      ensures puts == old(puts) + EntryPuts(y, e)
    {
      DrawEntryLeft(y, e);
      DrawEntryRight(y, e);
      SeqAssoc(old(puts), EntryLeft(y, e), EntryRight(y, e));
    }

    /** The player mark, the word cells, the score and a space. */
    method DrawEntryLeft(y: int, e: HistoryEntry)
      requires |e.word| >= 9
      modifies this
      ensures puts == old(puts) + EntryLeft(y, e)
    {
      ghost var mark := CharPuts(HISTORY_COL, y, if e.player == 0 then '>' as int else '<' as int, 0);
      ghost var cells := WordCells(y, e.word, e.blanks, 0, false);
      ghost var score := Row(HISTORY_COL + 10, y, Number3dCodes(e.score), 0);
      ghost var gap := CharPuts(HISTORY_COL + 13, y, ' ' as int, 0);
      DrawChar(HISTORY_COL, y, if e.player == 0 then '>' as int else '<' as int, 0);
      DrawWord(y, e.word, e.blanks);
      SeqAssoc(old(puts), mark, cells);
      DrawNumber3d(HISTORY_COL + 10, y, e.score, 0);
      SeqAssoc(old(puts), mark + cells, score);
      DrawChar(HISTORY_COL + 13, y, ' ' as int, 0);
      SeqAssoc(old(puts), mark + cells + score, gap);
    }

    /** The equity, a space and the frame count. */
    method DrawEntryRight(y: int, e: HistoryEntry)
      modifies this
      ensures puts == old(puts) + EntryRight(y, e)
    {
      ghost var equity := HexNFrom(HISTORY_COL + 14, y, e.equity % 0x1_0000, EQUITY_DIGITS - 1, 0);
      ghost var gap := CharPuts(HISTORY_COL + 17, y, ' ' as int, 0);
      ghost var frames := HexNFrom(HISTORY_COL + 18, y, e.frames, FRAME_DIGITS - 1, 0);
      DrawHexN(HISTORY_COL + 14, y, e.equity % 0x1_0000, EQUITY_DIGITS, 0);
      DrawChar(HISTORY_COL + 17, y, ' ' as int, 0);
      SeqAssoc(old(puts), equity, gap);
      DrawHexN(HISTORY_COL + 18, y, e.frames, FRAME_DIGITS, 0);
      SeqAssoc(old(puts), equity + gap, frames);
    }

    /** The word loop of draw_history: nine cells, a space from the first
      * NUL on, else the character in grey when its blanks bit is set. */
    method DrawWord(y: int, word: String, blanks: nat)
      requires |word| >= 9
      modifies this
      ensures puts == old(puts) + WordCells(y, word, blanks, 0, false)
    {
      ghost var full := old(puts) + WordCells(y, word, blanks, 0, false);
      var ended := false;
      var j := 0;
      while j < 9
        invariant 0 <= j <= 9 && full == puts + WordCells(y, word, blanks, j, ended)
      {
        var c := word[j];
        if ended || c == '\0' {
          SeqAssoc(puts, CharPuts(HISTORY_COL + 1 + j, y, ' ' as int, 0), WordCells(y, word, blanks, j + 1, true));
          DrawChar(HISTORY_COL + 1 + j, y, ' ' as int, 0);
          ended := true;
        } else {
          var pal := if BitSet(blanks, j) then 1 else 0;
          SeqAssoc(puts, CharPuts(HISTORY_COL + 1 + j, y, c as int, pal), WordCells(y, word, blanks, j + 1, false));
          DrawChar(HISTORY_COL + 1 + j, y, c as int, pal);
        }
        j := j + 1;
      }
      assert puts + [] == puts;
    }

    /** The clearing loop of draw_history: a space in every column from
      * HISTORY_COL to 39. */
    method ClearRow(y: int)
      modifies this
      ensures puts == old(puts) + ClearedRow(y)
    {
      var j := HISTORY_COL;
      while j < 40
        invariant HISTORY_COL <= j <= 40 && puts == old(puts) + SpaceCells(y, j - HISTORY_COL)
      {
        DrawChar(j, y, ' ' as int, 0);
        assert SpaceCells(y, j + 1 - HISTORY_COL) == SpaceCells(y, j - HISTORY_COL) + [Put(j, y, ' ' as int, 0)];
        j := j + 1;
      }
    }
  }

  /** The inner loop of draw_number at step i: subtract Power(i) from
    * what is left while it fits, counting how often. */
  method Subtract(ghost n0: nat, i: nat, left: nat) returns (digit: nat, n: nat)
    requires i < 5 && left == Left(n0, i)
    ensures digit == StepDigit(n0, i) && n == Left(n0, i + 1)
  {
    var p := Power(i);
    n := left;
    digit := 0;
    while n >= p
      invariant digit * p + n == left
    {
      n := n - p;
      digit := digit + 1;
    }
    StepFacts(n0, i, digit, n);
  }

  /** Storing one digit: '0' + digit goes at pos once a digit has been
    * stored or this one is nonzero. */
  method Store(buf: array<int>, pos: nat, digit: nat, started: bool) returns (pos': nat, started': bool)
    requires pos < buf.Length
    modifies buf
    ensures started' == (started || digit > 0)
    ensures pos' <= buf.Length && pos' == pos + (if started' then 1 else 0)
    ensures buf[..pos'] == old(buf[..pos]) + (if started' then [DigitCode(digit)] else [])
  {
    pos', started' := pos, started;
    if digit > 0 || started {
      buf[pos] := DigitCode(digit);
      pos', started' := pos + 1, true;
    }
    assert buf[..pos'] == old(buf[..pos]) + (if started' then [DigitCode(digit)] else []);
  }

  /** draw_hex's conversion loop: the eight nibbles of num, the lowest at
    * the right. On a uint32_t, num & 0xF and num >>= 4 are num % 16 and
    * num / 16. */
  method FillHex(buf: array<char>, num: nat)
    requires buf.Length == 8
    modifies buf
    ensures buf[..] == FixedHex(num, 8)
  {
    var v := num;
    var i := 7;
    while i >= 0
      invariant -1 <= i <= 7
      invariant FixedHex(num, 8) == FixedHex(v, i + 1) + buf[i + 1..]
    {
      buf[i] := "0123456789ABCDEF"[v % 16];
      assert buf[i..] == [buf[i]] + buf[i + 1..];
      v := v / 16;
      i := i - 1;
    }
  }

  /** The first half of draw_number: the sign taken off, and the digits
    * stored in buf. */
  method FillNumber(buf: array<int>, num: int) returns (pos: nat, neg: bool)
    requires buf.Length == 12
    modifies buf
    ensures pos <= buf.Length && neg == (num < 0)
    ensures NumberCodes(num) == (if neg then ['-' as int] else []) + buf[..pos]
  {
    neg := num < 0;
    var n: nat := if num < 0 then -num else num;
    if n == 0 {
      buf[0] := '0' as int;
      pos := 1;
      assert buf[..pos] == ['0' as int];
    } else {
      pos := Digits(buf, n);
    }
  }

  /** The sign, then the digits from the next column on. */
  lemma SignedRow(x: int, y: int, neg: bool, digits: seq<int>, pal: int)
    ensures Row(x, y, (if neg then ['-' as int] else []) + digits, pal)
      == (if neg then CharPuts(x, y, '-' as int, pal) else []) + Row(if neg then x + 1 else x, y, digits, pal)
  {
    var sign := if neg then ['-' as int] else [];
    RowConcat(x, y, sign, digits, pal);
    assert Row(x, y, sign, pal) == if neg then CharPuts(x, y, '-' as int, pal) else [];
  }

  /** The digit loop of draw_number for n > 0: at each power, the digit by
    * subtraction, stored as '0' + digit once a nonzero digit is seen. */
  method Digits(buf: array<int>, n0: nat) returns (pos: nat)
    requires buf.Length == 12
    modifies buf
    ensures pos <= 5 && buf[..pos] == Steps(n0, 0, false)
  {
    ghost var full := Steps(n0, 0, false);
    var n := n0;
    pos := 0;
    var started := false;
    var i := 0;
    while i < 5
      invariant 0 <= pos <= i <= 5
      invariant n == Left(n0, i)
      invariant buf[..pos] + Steps(n0, i, started) == full
    {
      var digit;
      digit, n := Subtract(n0, i, n);
      ghost var written := buf[..pos];
      StepsNext(n0, i, started, written, full);
      pos, started := Store(buf, pos, digit, started);
      i := i + 1;
    }
    assert buf[..pos] + [] == buf[..pos];
  }

  /** One step of the digit loop keeps the characters written and those to
    * come equal to the whole. */
  lemma StepsNext(n: nat, i: nat, started: bool, written: seq<int>, full: seq<int>)
    requires i < 5 && written + Steps(n, i, started) == full
    ensures var d := StepDigit(n, i);
      (written + (if d > 0 || started then [DigitCode(d)] else [])) + Steps(n, i + 1, started || d > 0) == full
  {
    var d := StepDigit(n, i);
    SeqAssoc(written, if d > 0 || started then [DigitCode(d)] else [], Steps(n, i + 1, started || d > 0));
  }

}
