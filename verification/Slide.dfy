/** Signed sliding windows, read from the most significant bit down, and the ladder that consumes them. */
module Slide {
  import opened Words
  import opened Bits
  import opened Bitwise

  /** x << n. */
  function Shl(x: int, n: nat): int
  {
    if n == 0 then x else 2 * Shl(x, n - 1)
  }

  /** x >> n, rounding down. */
  function Sar(x: int, n: nat): int
    decreases n
  {
    if n == 0 then x else Sar(x / 2, n - 1)
  }

  lemma {:induction false} ShlAdd(x: int, y: int, n: nat)
    ensures Shl(x + y, n) == Shl(x, n) + Shl(y, n)
  {
    if n > 0 { ShlAdd(x, y, n - 1); }
  }

  lemma {:induction false} ShlShl(x: int, m: nat, n: nat)
    ensures Shl(Shl(x, m), n) == Shl(x, m + n)
  {
    if n > 0 { ShlShl(x, m, n - 1); }
  }

  lemma {:induction false} ShlDouble(x: int, n: nat)
    ensures Shl(2 * x, n) == Shl(x, n + 1)
  {
    if n > 0 { ShlDouble(x, n - 1); }
  }

  lemma {:induction false} ShlZero(n: nat)
    ensures Shl(0, n) == 0
  {
    if n > 0 { ShlZero(n - 1); }
  }

  lemma {:induction false} ShlOne(n: nat)
    ensures Shl(1, n) == Pow2(n)
  {
    if n > 0 { ShlOne(n - 1); }
  }

  lemma {:induction false} Pow2Mono(m: nat, n: nat)
    requires m <= n
    ensures Pow2(m) <= Pow2(n)
  {
    if m < n { Pow2Mono(m, n - 1); }
  }

  /** The bits of s below position n, as a number. */
  function Low(s: seq<u8>, n: nat): int
    requires |s| == 32 && n <= 256
  {
    if n == 0 then 0 else Low(s, n - 1) + Shl(ScalarBit(s, n - 1), n - 1)
  }

  /** What is left to recode when position c is checked next: bit c counts negatively. */
  function Rem(s: seq<u8>, c: int): int
    requires |s| == 32 && -1 <= c < 256
  {
    if c < 0 then 0 else Low(s, c) - Shl(ScalarBit(s, c), c)
  }

  lemma {:induction false} LowTop(s: seq<u8>, n: nat)
    requires |s| == 32 && n <= 256
    ensures BytesVal(s) == Low(s, n) + Shl(TopBits(s, n), n)
  {
    if n > 0 {
      LowTop(s, n - 1);
      TopBitsStep(s, n - 1);
      ShlAdd(2 * TopBits(s, n), ScalarBit(s, n - 1), n - 1);
      ShlDouble(TopBits(s, n), n - 1);
    }
  }

  /** Equal neighbouring bits: the check can move down by one. */
  lemma RemSkip(s: seq<u8>, c: int)
    requires |s| == 32 && 0 <= c < 256 && ScalarBit(s, c) == ScalarBit(s, c - 1)
    ensures Rem(s, c) == Rem(s, c - 1)
  {
  }

  /** The n bits from position lo up, as a number. */
  function Window(s: seq<u8>, lo: nat, n: nat): int
    requires |s| == 32 && lo + n <= 256
  {
    if n == 0 then 0 else Window(s, lo, n - 1) + Shl(ScalarBit(s, lo + n - 1), n - 1)
  }

  lemma ShlBit(b: nat, n: nat)
    requires b <= 1
    ensures Shl(b, n) == if b == 0 then 0 else Pow2(n)
  {
    ShlZero(n);
    ShlOne(n);
  }

  lemma {:induction false} WindowBounds(s: seq<u8>, lo: nat, n: nat)
    requires |s| == 32 && lo + n <= 256
    ensures 0 <= Window(s, lo, n) < Pow2(n)
  {
    if n > 0 {
      WindowBounds(s, lo, n - 1);
      ShlBit(ScalarBit(s, lo + n - 1), n - 1);
    }
  }

  lemma {:induction false} LowWindow(s: seq<u8>, lo: nat, n: nat)
    requires |s| == 32 && lo + n <= 256
    ensures Low(s, lo + n) == Low(s, lo) + Shl(Window(s, lo, n), lo)
  {
    if n == 0 {
      ShlZero(lo);
    } else {
      LowWindow(s, lo, n - 1);
      ShlAdd(Window(s, lo, n - 1), Shl(ScalarBit(s, lo + n - 1), n - 1), lo);
      ShlShl(ScalarBit(s, lo + n - 1), n - 1, lo);
    }
  }

  /** The signed value of a window of w bits whose top bit is i, rounded by the bit below it. */
  function Digit(s: seq<u8>, i: nat, w: nat): int
    requires |s| == 32 && i < 256 && 1 <= w <= i + 1
  {
    Window(s, i - w + 1, w - 1) - Shl(ScalarBit(s, i), w - 1) + ScalarBit(s, i - w)
  }

  /** A window takes its digit out of what is left. */
  lemma RemWindow(s: seq<u8>, i: nat, w: nat)
    requires |s| == 32 && i < 256 && 1 <= w <= i + 1
    ensures Rem(s, i) == Rem(s, i - w) + Shl(Digit(s, i, w), i - w + 1)
  {
    var lo, top := i - w + 1, Shl(ScalarBit(s, i), w - 1);
    hide Shl, Window, ScalarBit, Low;
    LowWindow(s, lo, w - 1);
    ShlShl(ScalarBit(s, i), w - 1, lo);
    ShlAdd(Digit(s, i, w), top, lo);
    ShlAdd(Window(s, lo, w - 1), ScalarBit(s, i - w), lo);
    LowBelow(s, lo);
  }

  lemma LowBelow(s: seq<u8>, lo: nat)
    requires |s| == 32 && lo <= 256
    ensures Low(s, lo) == Rem(s, lo - 1) + Shl(ScalarBit(s, lo - 1), lo)
  {
  }

  /** Different neighbouring bits give a digit that is not zero and fits the window. */
  lemma DigitRange(s: seq<u8>, i: nat, w: nat)
    requires |s| == 32 && i < 256 && 1 <= w <= i + 1 && (w == 1 ==> i == 0)
    requires ScalarBit(s, i) != ScalarBit(s, i - 1)
    ensures Digit(s, i, w) != 0 && 0 - Pow2(w - 1) <= Digit(s, i, w) <= Pow2(w - 1)
  {
    ShlBit(ScalarBit(s, i), w - 1);
    if w >= 2 {
      WindowBounds(s, i - w + 1, w - 2);
      ShlBit(ScalarBit(s, i - 1), w - 2);
    }
  }

  /** How often v can be halved: the position of its lowest set bit, v & -v. */
  function Trailing(v: int): (k: nat)
    requires v != 0
    ensures Sar(v, k) % 2 == 1 && Shl(Sar(v, k), k) == v
    ensures Pow2(k) <= if v < 0 then -v else v
    decreases if v < 0 then -v else v
  {
    if v % 2 == 1 then 0 else Trailing(v / 2) + 1
  }

  lemma {:induction false} AndComplement(x: nat, w: nat)
    requires x < Pow2(w)
    ensures And(x, Pow2(w) - 1 - x) == 0
  {
    if w > 0 {
      hide And;
      AndComplement(x / 2, w - 1);
      AndStep(x / 2, Pow2(w - 1) - 1 - x / 2, x % 2, 1 - x % 2);
    }
  }

  /** And, one bit at a time. */
  lemma AndStep(a: nat, b: nat, i: nat, j: nat)
    requires i <= 1 && j <= 1
    ensures And(2 * a + i, 2 * b + j) == 2 * And(a, b) + if i == 1 && j == 1 then 1 else 0
  {
    var x, y := 2 * a + i, 2 * b + j;
    assert x / 2 == a && x % 2 == i && y / 2 == b && y % 2 == j;
  }

  /** v as a two's complement word, for the power p of two. */
  function Word(v: int, p: nat): nat
    requires 0 - p <= v < p
  {
    if v < 0 then v + p else v
  }

  lemma WordHalf(v: int, p: nat)
    requires 0 - 2 * p < v < 2 * p && v != 0
    ensures var u := Word(v, 2 * p) / 2;
            u < p && Word(v, 2 * p) == 2 * u + v % 2 && (v % 2 == 0 ==> u == Word(v / 2, p))
  {
  }

  /** v & (~v + 1) keeps the lowest set bit and no other. */
  lemma {:induction false} LowestBit(v: int, w: nat)
    requires 0 - Pow2(w) < v < Pow2(w) && v != 0
    ensures And(Word(v, Pow2(w)), Pow2(w) - Word(v, Pow2(w))) == Pow2(Trailing(v))
    decreases w
  {
    hide And, Shl, Sar, Word;
    var p := Pow2(w - 1);
    WordHalf(v, p);
    var u := Word(v, 2 * p) / 2;
    if v % 2 == 1 {
      AndComplement(u, w - 1);
      AndStep(u, p - 1 - u, 1, 1);
    } else {
      LowestBit(v / 2, w - 1);
      AndStep(u, p - u, 0, 0);
    }
  }

  /** log2 of a byte with one bit set, read off three masks. */
  function MaskLog(lsb: bv8): nat
  {
    (if lsb & 0xAA != 0 then 1 else 0) + (if lsb & 0xCC != 0 then 2 else 0) + (if lsb & 0xF0 != 0 then 4 else 0)
  }

  lemma MaskLogPower(k: nat)
    requires k < 8
    ensures Pow2(k) < 0x100 && MaskLog(Pow2(k) as bv8) == k
  {
    Pow2Values();
    if
    case k == 0 => assert Pow2(k) as bv8 == 1;
    case k == 1 => assert Pow2(k) as bv8 == 2;
    case k == 2 => assert Pow2(k) as bv8 == 4;
    case k == 3 => assert Pow2(k) as bv8 == 8;
    case k == 4 => assert Pow2(k) as bv8 == 16;
    case k == 5 => assert Pow2(k) as bv8 == 32;
    case k == 6 => assert Pow2(k) as bv8 == 64;
    case k == 7 => assert Pow2(k) as bv8 == 128;
  }

  lemma SmallPow(k: nat)
    requires k < 8
    ensures Pow2(k) <= 128
  {
    Pow2Values();
  }

  /** The shift of slide_step, computed on the 32-bit word that holds v. */
  method ShiftOf(v: int) returns (k: nat)
    requires v != 0 && -0x8000_0000 <= v < 0x8000_0000 && Trailing(v) < 8
    ensures k == Trailing(v)
  {
    Pow2Word();
    hide And, Pow2, Trailing;
    var word := if v < 0 then v + 0x1_0000_0000 else v;
    var lsb := And(word, 0x1_0000_0000 - word);
    LowestBit(v, 32);
    MaskLogPower(Trailing(v));
    k := MaskLog(lsb as bv8);
  }

  /** The value of the window below and at position i, summed bit by bit. */
  method WindowDigit(s: seq<u8>, i: nat, w: nat) returns (v: int)
    requires |s| == 32 && i < 256 && 1 <= w <= i + 1
    ensures v == Digit(s, i, w)
  {
    v := -Shl(ScalarBit(s, i), w - 1);
    for j := 0 to w - 1
      invariant v == Window(s, i - w + 1, j) - Shl(ScalarBit(s, i), w - 1)
    {
      v := v + Shl(ScalarBit(s, i - (w - 1) + j), j);
    }
    v := v + ScalarBit(s, i - w);
  }

  /** An odd digit that a table of 2^(width-2) odd multiples covers. */
  predicate InTable(d: int, width: nat)
    requires width >= 2
  {
    d % 2 == 1 && 0 - Pow2(width - 1) < d < Pow2(width - 1)
  }

  /** Shifting out the trailing zeros of a window digit leaves a table digit. */
  lemma OddPart(v: int, w: nat, width: nat)
    requires 1 <= w <= width && 2 <= width
    requires v != 0 && 0 - Pow2(w - 1) <= v <= Pow2(w - 1)
    ensures Trailing(v) < w && InTable(Sar(v, Trailing(v)), width)
  {
    var k := Trailing(v);
    if k >= w { Pow2Mono(w, k); }
    if w < width { Pow2Mono(w, width - 1); }
    SarShrinks(v, k);
  }

  lemma {:induction false} SarShrinks(v: int, k: nat)
    ensures v > 0 ==> 0 <= Sar(v, k) <= v
    ensures v < 0 ==> v <= Sar(v, k) < 0
    decreases k
  {
    if k > 0 && v != 0 { SarShrinks(v / 2, k - 1); SarZero(k - 1); }
  }

  lemma {:induction false} SarZero(k: nat)
    ensures Sar(0, k) == 0
  {
    if k > 0 { SarZero(k - 1); }
  }

  /** The odd part of a window digit, at the position its trailing zeros put it. */
  lemma WindowTaken(s: seq<u8>, i: nat, w: nat, width: nat)
    requires |s| == 32 && i < 254 && 1 <= w <= i + 1 && w <= width && 2 <= width && (w == 1 ==> i == 0)
    requires ScalarBit(s, i) != ScalarBit(s, i - 1)
    ensures Digit(s, i, w) != 0 && 0 - Pow2(w - 1) <= Digit(s, i, w) <= Pow2(w - 1)
    ensures var k := Trailing(Digit(s, i, w));
            var d := Sar(Digit(s, i, w), k);
            k < w && InTable(d, width) && Rem(s, i) == Shl(d, i - w + 1 + k) + Rem(s, i - w)
  {
    DigitRange(s, i, w);
    RemWindow(s, i, w);
    OddPart(Digit(s, i, w), w, width);
    var k := Trailing(Digit(s, i, w));
    ShlShl(Sar(Digit(s, i, w), k), k, i - w + 1);
  }

  /** The digit found but not yet returned, with its weight, when positions up to i remain. */
  function Pending(nextIndex: int, nextDigit: int, i: int): int
  {
    if 0 <= nextIndex <= i then Shl(nextDigit, nextIndex) else 0
  }

  /**
   * Before position i is stepped, with position check looked at next: the digits returned so far, the
   * digit pending and the bits left make up s. A pending digit lies above the next check, so it is
   * returned before it can be overwritten.
   */
  ghost predicate Inv(s: seq<u8>, width: nat, i: int, ladder: int, nextIndex: int, nextDigit: int, check: int)
  {
    |s| == 32 && width >= 2 && -1 <= i <= 253 && -1 <= check <= i &&
    (0 <= nextIndex ==> InTable(nextDigit, width)) &&
    (0 <= nextIndex <= i ==> check < nextIndex) &&
    BytesVal(s) == Shl(ladder, i + 1) + Pending(nextIndex, nextDigit, i) + Rem(s, check)
  }

  /** Returning the digit at position i and moving on. */
  lemma Emit(s: seq<u8>, width: nat, i: nat, ladder: int, nextIndex: int, nextDigit: int, check: int, digit: int)
    requires Inv(s, width, i, ladder, nextIndex, nextDigit, check) && check < i
    requires digit == if i == nextIndex then nextDigit else 0
    ensures Inv(s, width, i - 1, 2 * ladder + digit, nextIndex, nextDigit, check)
    ensures digit == 0 || InTable(digit, width)
  {
    ShlAdd(2 * ladder, digit, i);
    ShlDouble(ladder, i);
    ShlZero(i);
  }

  /** Two equal bits at the position checked need no digit. */
  lemma InvSkip(s: seq<u8>, width: nat, i: nat, ladder: int, nextIndex: int, nextDigit: int)
    requires Inv(s, width, i, ladder, nextIndex, nextDigit, i) && ScalarBit(s, i) == ScalarBit(s, i - 1)
    ensures Inv(s, width, i, ladder, nextIndex, nextDigit, i - 1)
  {
    RemSkip(s, i);
  }

  /** A window takes the place of a digit that has been returned. */
  lemma InvTake(s: seq<u8>, width: nat, i: nat, ladder: int, nextIndex: int, nextDigit: int, index: int, digit: int,
                check: int)
    requires Inv(s, width, i, ladder, nextIndex, nextDigit, i)
    requires -1 <= check < index <= i && InTable(digit, width) && Rem(s, i) == Shl(digit, index) + Rem(s, check)
    ensures Inv(s, width, i, ladder, index, digit, check)
  {
  }

  /** next_check -= w as a byte: 255 stands for -1. */
  lemma ByteWrap(i: int, w: int)
    requires 0 <= i < 254 && 1 <= w <= 8 && -1 <= i - w
    ensures (i + 0x100 - w) % 0x100 == if i - w < 0 then 255 else i - w
  {
  }

  class Recoder {
    var nextIndex: int // position of the next signed digit
    var nextDigit: int // next signed digit
    var nextCheck: nat // a byte: where to look for a new window

    /** The position checked next: the byte has wrapped around when it is 255. */
    function Check(): int
      reads this
    {
      if nextCheck == 255 then -1 else nextCheck
    }

    ghost predicate Ready(s: seq<u8>, width: nat, i: int, ladder: int)
      reads this
    {
      nextCheck <= 255 && Inv(s, width, i, ladder, nextIndex, nextDigit, Check())
    }

    /** slide_init. */
    constructor (s: seq<u8>)
      requires |s| == 32 && TopBits(s, 253) == 0
      ensures 1 <= nextCheck <= 253 && nextIndex == -1
      ensures BytesVal(s) == Rem(s, nextCheck)
    {
      var i := 252;
      TopBitsStep(s, 253);
      while i > 0 && ScalarBit(s, i) == 0
        invariant 0 <= i <= 252 && TopBits(s, i + 1) == 0 && ScalarBit(s, i + 1) == 0
      {
        TopBitsStep(s, i);
        i := i - 1;
      }
      nextCheck := i + 1;
      nextIndex := -1;
      nextDigit := -1;
      LowTop(s, i + 1);
      ShlZero(i + 1);
    }

    /** The window found at position i becomes the pending digit. */
    method TakeWindow(s: seq<u8>, width: nat, i: nat)
      requires |s| == 32 && 2 <= width <= 8 && i < 254 && nextCheck == i
      requires ScalarBit(s, i) != ScalarBit(s, i - 1)
      modifies this
      ensures nextCheck <= 255 && Check() < nextIndex <= i && InTable(nextDigit, width)
      ensures Rem(s, i) == Shl(nextDigit, nextIndex) + Rem(s, Check())
    {
      var w := if width <= i + 1 then width else i + 1;
      hide Rem, Trailing, Digit, Window, InTable, ScalarBit, Pow2, Shl, Sar;
      WindowTaken(s, i, w, width);
      var v := WindowDigit(s, i, w);
      SmallPow(w - 1);
      var shift := ShiftOf(v);
      nextIndex := i - (w - 1) + shift;
      nextDigit := Sar(v, shift);
      nextCheck := (nextCheck + 0x100 - w) % 0x100;
      ByteWrap(i, w);
      assert nextIndex == i - w + 1 + shift;
    }

    /** Looks for a new window at position i if one is due. */
    method Renew(s: seq<u8>, width: nat, i: nat, ghost ladder: int)
      requires Ready(s, width, i, ladder) && |s| == 32 && 2 <= width <= 8 && i <= 253 && Check() <= i
      modifies this
      ensures Ready(s, width, i, ladder) && Check() < i
    {
      hide Inv, Rem, Shl, InTable;
      if i == nextCheck {
        if ScalarBit(s, i) == ScalarBit(s, i - 1) {
          InvSkip(s, width, i, ladder, nextIndex, nextDigit);
          ByteWrap(i, 1);
          nextCheck := (nextCheck + 0xff) % 0x100;
        } else {
          ghost var index, digit := nextIndex, nextDigit;
          TakeWindow(s, width, i);
          InvTake(s, width, i, ladder, index, digit, nextIndex, nextDigit, Check());
        }
      }
    }

    /** slide_step: the digit at position i, or 0. */
    method Step(s: seq<u8>, width: nat, i: nat, ghost ladder: int) returns (digit: int, ghost next: int)
      requires Ready(s, width, i, ladder) && width <= 8
      modifies this
      ensures next == 2 * ladder + digit && Ready(s, width, i - 1, next)
      ensures digit == 0 || InTable(digit, width)
    {
      InvBounds(s, width, i, ladder, nextIndex, nextDigit, Check());
      hide Inv, InTable;
      Renew(s, width, i, ladder);
      digit := if i == nextIndex then nextDigit else 0;
      next := 2 * ladder + digit;
      Emit(s, width, i, ladder, nextIndex, nextDigit, Check(), digit);
    }
  }

  lemma InvBounds(s: seq<u8>, width: nat, i: int, ladder: int, nextIndex: int, nextDigit: int, check: int)
    requires Inv(s, width, i, ladder, nextIndex, nextDigit, check)
    ensures |s| == 32 && width >= 2 && -1 <= i <= 253 && -1 <= check <= i
  {
  }

  /**
   * Doubling and adding one digit. Digits of widths 3 and 5 index tables of 2 and 8 odd multiples, whose
   * entry k stands for 2 * k + 1.
   */
  method DoubleAdd(sum: int, digit: int, width: nat) returns (r: int)
    requires (width == 3 || width == 5) && (digit == 0 || InTable(digit, width))
    ensures r == 2 * sum + digit
  {
    var size := Pow2(width - 2);
    r := 2 * sum;
    if digit > 0 {
      var entry := digit / 2;
      assert 0 <= entry < size;
      r := r + (2 * entry + 1);
    }
    if digit < 0 {
      var entry := -digit / 2;
      assert 0 <= entry < size;
      r := r - (2 * entry + 1);
    }
  }

  lemma ReadyStart(r: Recoder, s: seq<u8>, width: nat, i: nat)
    requires |s| == 32 && 2 <= width && r.nextCheck <= i < 254 && 1 <= r.nextCheck && r.nextIndex == -1
    requires BytesVal(s) == Rem(s, r.nextCheck)
    ensures r.Ready(s, width, i, 0)
  {
    InvStart(s, width, i, r.nextIndex, r.nextDigit, r.Check());
  }

  lemma ReadyEnd(r: Recoder, s: seq<u8>, width: nat, ladder: int)
    requires r.Ready(s, width, -1, ladder)
    ensures ladder == BytesVal(s)
  {
    InvEnd(s, width, ladder, r.nextIndex, r.nextDigit, r.Check());
  }

  method LadderStart(h: seq<u8>, s: seq<u8>) returns (hSlide: Recoder, sSlide: Recoder, i: nat)
    requires |h| == |s| == 32 && TopBits(h, 253) == 0 && TopBits(s, 253) == 0
    ensures fresh(hSlide) && fresh(sSlide) && hSlide != sSlide && i <= 253
    ensures hSlide.Ready(h, 3, i, 0) && sSlide.Ready(s, 5, i, 0)
  {
    hide Rem, BytesVal, TopBits, Recoder.Ready;
    hSlide := new Recoder(h);
    sSlide := new Recoder(s);
    i := if hSlide.nextCheck < sSlide.nextCheck then sSlide.nextCheck else hSlide.nextCheck;
    ReadyStart(hSlide, h, 3, i);
    ReadyStart(sSlide, s, 5, i);
  }

  /** One turn of the loop. */
  method LadderStep(hSlide: Recoder, sSlide: Recoder, h: seq<u8>, s: seq<u8>, i: nat, a: int, b: int)
    returns (a': int, b': int)
    requires hSlide != sSlide && hSlide.Ready(h, 3, i, a) && sSlide.Ready(s, 5, i, b)
    modifies hSlide, sSlide
    ensures hSlide.Ready(h, 3, i - 1, a') && sSlide.Ready(s, 5, i - 1, b')
  {
    hide Inv, InTable;
    ghost var nextA, nextB;
    var hDigit, sDigit;
    hDigit, nextA := hSlide.Step(h, 3, i, a);
    sDigit, nextB := sSlide.Step(s, 5, i, b);
    a' := DoubleAdd(a, hDigit, 3);
    b' := DoubleAdd(b, sDigit, 5);
  }

  /**
   * The ladder of crypto_eddsa_check_equation, on the coefficients of -A and B instead of curve points:
   * doubling doubles both, a table entry adds its multiple. It ends with [h](-A) + [s]B.
   */
  method Ladder(h: seq<u8>, s: seq<u8>) returns (a: int, b: int)
    requires |h| == |s| == 32 && TopBits(h, 253) == 0 && TopBits(s, 253) == 0
    ensures a == BytesVal(h) && b == BytesVal(s)
  {
    hide BytesVal, TopBits, Recoder.Ready;
    var hSlide, sSlide, start := LadderStart(h, s);
    var i: int := start;
    a, b := 0, 0;
    while i >= 0
      invariant -1 <= i <= 253 && hSlide != sSlide && hSlide.Ready(h, 3, i, a) && sSlide.Ready(s, 5, i, b)
    {
      a, b := LadderStep(hSlide, sSlide, h, s, i, a, b);
      i := i - 1;
    }
    ReadyEnd(hSlide, h, 3, a);
    ReadyEnd(sSlide, s, 5, b);
  }

  lemma InvStart(s: seq<u8>, width: nat, i: int, nextIndex: int, nextDigit: int, check: int)
    requires |s| == 32 && width >= 2 && 0 <= check <= i <= 253 && nextIndex == -1 && BytesVal(s) == Rem(s, check)
    ensures Inv(s, width, i, 0, nextIndex, nextDigit, check)
  {
    ShlZero(i + 1);
  }

  lemma InvEnd(s: seq<u8>, width: nat, ladder: int, nextIndex: int, nextDigit: int, check: int)
    requires Inv(s, width, -1, ladder, nextIndex, nextDigit, check)
    ensures ladder == BytesVal(s)
  {
  }
}
