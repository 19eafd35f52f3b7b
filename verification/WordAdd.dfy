/** The little-endian BCD addition of decFloatAdd: four digits in one 32-bit word. Words are numbers
    below 2^32; each mask-and-shift of the code is a function on them, written with quotients. */
module WordAdd {
  import opened Arith
  import opened Digits
  import opened Multiply
  import opened FusedAdd

  /* ---- Four bytes in a word; the byte at the lowest address is the least significant ---- */

  function Pack(t0: nat, t1: nat, t2: nat, t3: nat): nat {
    t0 + t1 * 0x100 + t2 * 0x1_0000 + t3 * 0x100_0000
  }

  function Byte(w: nat, i: nat): nat
    requires i < 4
  {
    (if i == 0 then w else if i == 1 then w / 0x100 else if i == 2 then w / 0x1_0000 else w / 0x100_0000) % 0x100
  }

  lemma PackBytes(t0: nat, t1: nat, t2: nat, t3: nat)
    requires t0 < 0x100 && t1 < 0x100 && t2 < 0x100 && t3 < 0x100
    ensures var w := Pack(t0, t1, t2, t3);
      w < TWO32 && Byte(w, 0) == t0 && Byte(w, 1) == t1 && Byte(w, 2) == t2 && Byte(w, 3) == t3
  {
    var w := Pack(t0, t1, t2, t3);
    DivModUnique(w, 0x100, t1 + t2 * 0x100 + t3 * 0x1_0000, t0);
    DivModUnique(w, 0x1_0000, t2 + t3 * 0x100, t0 + t1 * 0x100);
    DivModUnique(w, 0x100_0000, t3, t0 + t1 * 0x100 + t2 * 0x1_0000);
    DivModUnique(t1 + t2 * 0x100 + t3 * 0x1_0000, 0x100, t2 + t3 * 0x100, t1);
    DivModUnique(t2 + t3 * 0x100, 0x100, t3, t2);
  }

  /** The high bit of a byte. */
  function High(t: nat): nat { t / 0x80 % 2 }

  /* The word operations of the loop, one by one. */

  /** (w & 0x80000000) >> 15: the carry out of byte 3, in place to be added to byte 2. */
  function FromByte3(w: nat): nat { High(Byte(w, 3)) * 0x1_0000 }

  /** (w & 0x00800000) >> 15 */
  function FromByte2(w: nat): nat { High(Byte(w, 2)) * 0x100 }

  /** (w & 0x00008000) >> 15 */
  function FromByte1(w: nat): nat { High(Byte(w, 1)) }

  /** (w & 0x00000080) << 17 */
  function CarryOut(w: nat): nat { High(Byte(w, 0)) * 0x100_0000 }

  /** (t & 0x60) >> 4 for one byte. */
  function SixBack(t: nat): nat { t / 0x20 % 4 * 2 }

  /** (w & 0x60606060) >> 4 */
  function SixesBack(w: nat): nat {
    Pack(SixBack(Byte(w, 0)), SixBack(Byte(w, 1)), SixBack(Byte(w, 2)), SixBack(Byte(w, 3)))
  }

  /** w & 0x0f0f0f0f */
  function LowNibbles(w: nat): nat {
    Pack(Byte(w, 0) % 16, Byte(w, 1) % 16, Byte(w, 2) % 16, Byte(w, 3) % 16)
  }

  function Digit(s: nat): nat { if s >= 10 then s - 10 else s }

  function Carry(s: nat): nat { if s >= 10 then 1 else 0 }

  /** A digit sum s biased by 0x76 carries into its high bit exactly when s is 10 or more, and a six
      is taken back exactly when it is not; what is left in the low nibble is the digit. */
  lemma OneDigit(s: nat)
    requires s <= 19
    ensures var t := s + 0x76; var u := t - SixBack(t);
      High(t) == Carry(s) && SixBack(t) <= t < 0x100 && u % 16 == Digit(s) && High(u) == Carry(s)
  {}

  /** One turn of the loop; carry comes in and goes out as 0 or 0x01000000. */
  method AddWord(us: nat, ut: nat, carry0: nat) returns (sum: nat, carry: nat)
    requires us < TWO32 && ut < TWO32 && carry0 < TWO32
    ensures Wrap32(carry0 + us) == 0 ==> sum == ut && carry == 0
    ensures Wrap32(carry0 + us) != 0 ==>
      sum == LowNibbles(WordSum(carry0, us, ut)) && carry == CarryOut(WordSum(carry0, us, ut))
  {
    hide Wrap32, FromByte3, FromByte2, FromByte1, CarryOut, SixesBack, LowNibbles;
    carry := Wrap32(carry0 + us);
    if carry == 0 {
      sum := ut;
      return;
    }
    carry := Wrap32(carry + ut);
    carry := Wrap32(carry + 0x76767676);
    carry := Wrap32(carry + FromByte3(carry));
    carry := Wrap32(carry + FromByte2(carry));
    carry := Wrap32(carry + FromByte1(carry));
    carry := Wrap32(carry - SixesBack(carry));
    sum := LowNibbles(carry);
    carry := CarryOut(carry);
  }

  function WordSum(carry0: nat, us: nat, ut: nat): nat {
    var w1 := Wrap32(Wrap32(Wrap32(carry0 + us) + ut) + 0x76767676);
    var w2 := Wrap32(w1 + FromByte3(w1));
    var w3 := Wrap32(w2 + FromByte2(w2));
    var w4 := Wrap32(w3 + FromByte1(w3));
    Wrap32(w4 - SixesBack(w4))
  }

  lemma Unwrapped(x: int)
    requires 0 <= x < TWO32
    ensures Wrap32(x) == x
  {}

  lemma Biased(c: nat, x0: nat, x1: nat, x2: nat, x3: nat, y0: nat, y1: nat, y2: nat, y3: nat)
    requires c <= 1 && x0 <= 9 && x1 <= 9 && x2 <= 9 && x3 <= 9 && y0 <= 9 && y1 <= 9 && y2 <= 9 && y3 <= 9
    ensures Wrap32(Wrap32(Wrap32(Pack(0, 0, 0, c) + Pack(x0, x1, x2, x3)) + Pack(y0, y1, y2, y3)) + 0x76767676)
      == Pack(x0 + y0 + 0x76, x1 + y1 + 0x76, x2 + y2 + 0x76, x3 + y3 + c + 0x76)
  {
    hide Wrap32;
    var a := Pack(0, 0, 0, c) + Pack(x0, x1, x2, x3);
    Unwrapped(a);
    Unwrapped(a + Pack(y0, y1, y2, y3));
    Unwrapped(a + Pack(y0, y1, y2, y3) + 0x76767676);
  }

  /** The manual carries from byte to byte, right to left. */
  lemma Ripple(r0: nat, r1: nat, r2: nat, s3: nat)
    requires r0 <= 18 && r1 <= 18 && r2 <= 18 && s3 <= 19
    ensures
      var s2 := r2 + Carry(s3); var s1 := r1 + Carry(s2); var s0 := r0 + Carry(s1);
      var w1 := Pack(r0 + 0x76, r1 + 0x76, r2 + 0x76, s3 + 0x76);
      var w2 := Wrap32(w1 + FromByte3(w1));
      var w3 := Wrap32(w2 + FromByte2(w2));
      var w4 := Wrap32(w3 + FromByte1(w3));
      w4 == Pack(s0 + 0x76, s1 + 0x76, s2 + 0x76, s3 + 0x76)
  {
    hide Wrap32, Byte, High;
    var s2 := r2 + Carry(s3);
    var s1 := r1 + Carry(s2);
    var s0 := r0 + Carry(s1);
    OneDigit(s3); OneDigit(s2); OneDigit(s1);
    PackBytes(r0 + 0x76, r1 + 0x76, r2 + 0x76, s3 + 0x76);
    PackBytes(r0 + 0x76, r1 + 0x76, s2 + 0x76, s3 + 0x76);
    PackBytes(r0 + 0x76, s1 + 0x76, s2 + 0x76, s3 + 0x76);
    Unwrapped(Pack(r0 + 0x76, r1 + 0x76, s2 + 0x76, s3 + 0x76));
    Unwrapped(Pack(r0 + 0x76, s1 + 0x76, s2 + 0x76, s3 + 0x76));
    Unwrapped(Pack(s0 + 0x76, s1 + 0x76, s2 + 0x76, s3 + 0x76));
  }

  /** Taking the sixes back leaves the digits in the low nibbles and the carry in the high bit. */
  lemma AdjustBack(s0: nat, s1: nat, s2: nat, s3: nat)
    requires s0 <= 19 && s1 <= 19 && s2 <= 19 && s3 <= 19
    ensures
      var w4 := Pack(s0 + 0x76, s1 + 0x76, s2 + 0x76, s3 + 0x76);
      var w := Wrap32(w4 - SixesBack(w4));
      LowNibbles(w) == Pack(Digit(s0), Digit(s1), Digit(s2), Digit(s3)) && CarryOut(w) == Carry(s0) * 0x100_0000
  {
    hide Wrap32, Byte, High, SixBack, Digit, Carry;
    OneDigit(s0); OneDigit(s1); OneDigit(s2); OneDigit(s3);
    var t0, t1, t2, t3 := s0 + 0x76, s1 + 0x76, s2 + 0x76, s3 + 0x76;
    var u0, u1, u2, u3 := t0 - SixBack(t0), t1 - SixBack(t1), t2 - SixBack(t2), t3 - SixBack(t3);
    PackBytes(t0, t1, t2, t3);
    PackBytes(u0, u1, u2, u3);
    Unwrapped(Pack(u0, u1, u2, u3));
  }

  /** The word sum is the four digit sums, with the carries between them. */
  lemma WordSumIs(c: nat, x0: nat, x1: nat, x2: nat, x3: nat, y0: nat, y1: nat, y2: nat, y3: nat)
    requires c <= 1 && x0 <= 9 && x1 <= 9 && x2 <= 9 && x3 <= 9 && y0 <= 9 && y1 <= 9 && y2 <= 9 && y3 <= 9
    ensures
      var s3 := c + x3 + y3; var s2 := Carry(s3) + x2 + y2;
      var s1 := Carry(s2) + x1 + y1; var s0 := Carry(s1) + x0 + y0;
      var w := WordSum(Pack(0, 0, 0, c), Pack(y0, y1, y2, y3), Pack(x0, x1, x2, x3));
      && LowNibbles(w) == Pack(Digit(s0), Digit(s1), Digit(s2), Digit(s3))
      && CarryOut(w) == Carry(s0) * 0x100_0000
  {
    hide Wrap32, FromByte3, FromByte2, FromByte1, CarryOut, SixesBack, LowNibbles, Pack;
    var s3 := c + x3 + y3;
    var s2 := Carry(s3) + x2 + y2;
    var s1 := Carry(s2) + x1 + y1;
    var s0 := Carry(s1) + x0 + y0;
    Biased(c, y0, y1, y2, y3, x0, x1, x2, x3);
    Ripple(x0 + y0, x1 + y1, x2 + y2, s3);
    AdjustBack(s0, s1, s2, s3);
  }

  /* ---- The loop ---- */

  /** CARRYPAT: a carry of one as the loop holds it. */
  function Pattern(c: nat): nat { c * 0x100_0000 }

  function LoadWord(buf: array<nat>, at: nat): nat
    requires at + 4 <= buf.Length
    reads buf
  {
    Pack(buf[at], buf[at + 1], buf[at + 2], buf[at + 3])
  }

  method StoreWord(buf: array<nat>, at: nat, w: nat)
    requires at + 4 <= buf.Length
    modifies buf
    ensures buf[at] == Byte(w, 0) && buf[at + 1] == Byte(w, 1) && buf[at + 2] == Byte(w, 2) && buf[at + 3] == Byte(w, 3)
    ensures forall i :: 0 <= i < buf.Length && !(at <= i < at + 4) ==> buf[i] == old(buf[i])
  {
    hide Byte;
    buf[at], buf[at + 1], buf[at + 2], buf[at + 3] := Byte(w, 0), Byte(w, 1), Byte(w, 2), Byte(w, 3);
  }

  /** Four digits are added as four digits are by hand. */
  ghost predicate AddedFour(x: seq<nat>, y: seq<nat>, c: nat, z: seq<nat>, c': nat) {
    && |x| == |y| == |z| == 4
    && var s3 := c + x[3] + y[3]; var s2 := Carry(s3) + x[2] + y[2];
       var s1 := Carry(s2) + x[1] + y[1]; var s0 := Carry(s1) + x[0] + y[0];
       z == [Digit(s0), Digit(s1), Digit(s2), Digit(s3)] && c' == Carry(s0)
  }

  method AddAt(acc: array<nat>, buf: array<nat>, at: nat, carry0: nat, ghost c: nat) returns (carry: nat, ghost c': nat)
    requires acc != buf && at + 4 <= acc.Length && at + 4 <= buf.Length && c <= 1 && carry0 == Pattern(c)
    requires AreDigits(acc[at..at + 4]) && AreDigits(buf[at..at + 4])
    modifies acc
    ensures c' <= 1 && carry == Pattern(c')
    ensures AddedFour(old(acc[at..at + 4]), buf[at..at + 4], c, acc[at..at + 4], c')
    ensures forall i :: 0 <= i < acc.Length && !(at <= i < at + 4) ==> acc[i] == old(acc[i])
  {
    hide Wrap32, LowNibbles, CarryOut, WordSum, Byte, Pack, Carry, Digit;
    ghost var x, y := acc[at..at + 4], buf[at..at + 4];
    assert acc[at] == x[0] && acc[at + 1] == x[1] && acc[at + 2] == x[2] && acc[at + 3] == x[3];
    assert buf[at] == y[0] && buf[at + 1] == y[1] && buf[at + 2] == y[2] && buf[at + 3] == y[3];
    PackBytes(x[0], x[1], x[2], x[3]);
    PackBytes(y[0], y[1], y[2], y[3]);
    var sum;
    sum, carry := AddWord(LoadWord(buf, at), LoadWord(acc, at), carry0);
    c' := FourDigits(c, x[0], x[1], x[2], x[3], y[0], y[1], y[2], y[3], sum, carry);
    StoreWord(acc, at, sum);
    assert acc[at..at + 4] == [Byte(sum, 0), Byte(sum, 1), Byte(sum, 2), Byte(sum, 3)];
  }

  lemma DigitRange(s: nat)
    requires s <= 19
    ensures Digit(s) <= 9 && Carry(s) <= 1
    ensures s <= 9 ==> Digit(s) == s && Carry(s) == 0
  {}

  /** The digits and carry of a hand addition. */
  ghost predicate ByHand(c: nat, x0: nat, x1: nat, x2: nat, x3: nat, y0: nat, y1: nat, y2: nat, y3: nat, sum: nat,
      c': nat) {
    var s3 := c + x3 + y3; var s2 := Carry(s3) + x2 + y2;
    var s1 := Carry(s2) + x1 + y1; var s0 := Carry(s1) + x0 + y0;
    && Byte(sum, 0) == Digit(s0) && Byte(sum, 1) == Digit(s1) && Byte(sum, 2) == Digit(s2) && Byte(sum, 3) == Digit(s3)
    && c' == Carry(s0)
  }

  lemma SkippedWord(x0: nat, x1: nat, x2: nat, x3: nat)
    requires x0 <= 9 && x1 <= 9 && x2 <= 9 && x3 <= 9
    ensures ByHand(0, x0, x1, x2, x3, 0, 0, 0, 0, Pack(x0, x1, x2, x3), 0)
  {
    hide Byte, Pack;
    PackBytes(x0, x1, x2, x3);
  }

  lemma AddedWord(c: nat, x0: nat, x1: nat, x2: nat, x3: nat, y0: nat, y1: nat, y2: nat, y3: nat) returns (c': nat)
    requires c <= 1 && x0 <= 9 && x1 <= 9 && x2 <= 9 && x3 <= 9 && y0 <= 9 && y1 <= 9 && y2 <= 9 && y3 <= 9
    ensures var w := WordSum(Pattern(c), Pack(y0, y1, y2, y3), Pack(x0, x1, x2, x3));
      ByHand(c, x0, x1, x2, x3, y0, y1, y2, y3, LowNibbles(w), c') && CarryOut(w) == Pattern(c')
    ensures c' <= 1
  {
    hide LowNibbles, CarryOut, WordSum, Byte, Digit, Carry, Pack;
    var s3 := c + x3 + y3;
    DigitRange(s3);
    var s2 := Carry(s3) + x2 + y2;
    DigitRange(s2);
    var s1 := Carry(s2) + x1 + y1;
    DigitRange(s1);
    var s0 := Carry(s1) + x0 + y0;
    DigitRange(s0);
    c' := Carry(s0);
    CarryWord(c);
    WordSumIs(c, x0, x1, x2, x3, y0, y1, y2, y3);
    PackBytes(Digit(s0), Digit(s1), Digit(s2), Digit(s3));
  }

  /** A word that is skipped has nothing to add and no carry; the others are added. */
  lemma FourDigits(c: nat, x0: nat, x1: nat, x2: nat, x3: nat, y0: nat, y1: nat, y2: nat, y3: nat, sum: nat, carry: nat)
    returns (c': nat)
    requires c <= 1 && x0 <= 9 && x1 <= 9 && x2 <= 9 && x3 <= 9 && y0 <= 9 && y1 <= 9 && y2 <= 9 && y3 <= 9
    requires var ut, us := Pack(x0, x1, x2, x3), Pack(y0, y1, y2, y3);
      if Wrap32(Pattern(c) + us) == 0 then sum == ut && carry == 0
      else sum == LowNibbles(WordSum(Pattern(c), us, ut)) && carry == CarryOut(WordSum(Pattern(c), us, ut))
    ensures ByHand(c, x0, x1, x2, x3, y0, y1, y2, y3, sum, c') && c' <= 1 && carry == Pattern(c')
  {
    hide Wrap32, LowNibbles, CarryOut, WordSum, ByHand, Pack;
    if Wrap32(Pattern(c) + Pack(y0, y1, y2, y3)) == 0 {
      NothingToAdd(c, y0, y1, y2, y3);
      SkippedWord(x0, x1, x2, x3);
      c' := 0;
    } else {
      c' := AddedWord(c, x0, x1, x2, x3, y0, y1, y2, y3);
    }
  }

  lemma NothingToAdd(c: nat, y0: nat, y1: nat, y2: nat, y3: nat)
    requires c <= 1 && y0 <= 9 && y1 <= 9 && y2 <= 9 && y3 <= 9 && Wrap32(Pattern(c) + Pack(y0, y1, y2, y3)) == 0
    ensures c == 0 && y0 == 0 && y1 == 0 && y2 == 0 && y3 == 0
  {
    hide Wrap32;
    Unwrapped(Pattern(c) + Pack(y0, y1, y2, y3));
  }

  lemma CarryWord(c: nat)
    ensures Pattern(c) == Pack(0, 0, 0, c)
  {}

  /** Four more digit positions of a sum. */
  lemma SumFour(a: seq<nat>, b: seq<nat>, t: nat, carry: nat, digits: seq<nat>, injected: nat, z: seq<nat>, carry': nat)
    requires |a| == |b| && t + 4 <= |a| && AreDigits(a) && AreDigits(b) && Summed(a, b, t, carry, digits, injected)
    requires var at := |a| - t - 4; AddedFour(a[at..at + 4], b[at..at + 4], carry, z, carry')
    ensures Summed(a, b, t + 4, carry', z + digits, injected)
  {
    hide Summed;
    var at := |a| - t - 4;
    var x, y := a[at..at + 4], b[at..at + 4];
    assert x[3] == a[|a| - 1 - t] && x[2] == a[|a| - 2 - t] && x[1] == a[|a| - 3 - t] && x[0] == a[|a| - 4 - t];
    assert y[3] == b[|a| - 1 - t] && y[2] == b[|a| - 2 - t] && y[1] == b[|a| - 3 - t] && y[0] == b[|a| - 4 - t];
    var s3 := carry + x[3] + y[3];
    var s2 := Carry(s3) + x[2] + y[2];
    var s1 := Carry(s2) + x[1] + y[1];
    SumStep(a, b, t, carry, digits, injected);
    SumStep(a, b, t + 1, Carry(s3), [z[3]] + digits, injected);
    SumStep(a, b, t + 2, Carry(s2), [z[2]] + ([z[3]] + digits), injected);
    SumStep(a, b, t + 3, Carry(s1), [z[1]] + ([z[2]] + ([z[3]] + digits)), injected);
    assert z + digits == [z[0]] + ([z[1]] + ([z[2]] + ([z[3]] + digits)));
  }

  /** The add loop, for any number of words: adds the digits of buf into those of acc, in place. The
      carry out is the overflow. */
  method AddWords(acc: array<nat>, buf: array<nat>, from: nat, w: nat, carry0: nat, ghost c: nat)
    returns (carry: nat, ghost c': nat)
    requires acc != buf && w % 4 == 0 && from + w <= acc.Length && from + w <= buf.Length && c <= 1
    requires carry0 == Pattern(c)
    requires AreDigits(acc[from..from + w]) && AreDigits(buf[from..from + w])
    modifies acc
    ensures c' <= 1 && carry == Pattern(c') && AreDigits(acc[from..from + w])
    ensures c' * Pow(10, w) + Val(acc[from..from + w]) == old(Val(acc[from..from + w])) + Val(buf[from..from + w]) + c
    ensures forall i :: 0 <= i < acc.Length && !(from <= i < from + w) ==> acc[i] == old(acc[i])
  {
    hide Val, Pow, Summed, AddedFour, Pattern;
    ghost var a, b := acc[from..from + w], buf[from..from + w];
    carry, c' := carry0, c;
    var left: nat := w;
    SumOpen(a, b, acc[from + left..from + w], c);
    while left >= 4
      invariant left % 4 == 0 && left <= w && c' <= 1 && carry == Pattern(c') && buf[from..from + w] == b
      invariant acc[from..from + left] == a[..left]
      invariant Summed(a, b, w - left, c', acc[from + left..from + w], c)
      invariant forall i :: 0 <= i < acc.Length && !(from <= i < from + w) ==> acc[i] == old(acc[i])
    {
      carry, c' := AddTurn(acc, buf, from, w, left, carry, a, b, c', c);
      left := left - 4;
    }
    SumClose(a, b, acc[from..from + w], c', c);
  }

  method AddTurn(acc: array<nat>, buf: array<nat>, from: nat, w: nat, left: nat, carry0: nat, ghost a: seq<nat>,
                 ghost b: seq<nat>, ghost c: nat, ghost injected: nat) returns (carry: nat, ghost c': nat)
    requires acc != buf && from + w <= acc.Length && from + w <= buf.Length && 4 <= left <= w
    requires c <= 1 && carry0 == Pattern(c) && |a| == |b| == w && AreDigits(a) && AreDigits(b)
    requires buf[from..from + w] == b && acc[from..from + left] == a[..left]
    requires Summed(a, b, w - left, c, acc[from + left..from + w], injected)
    modifies acc
    ensures c' <= 1 && carry == Pattern(c') && acc[from..from + left - 4] == a[..left - 4]
    ensures Summed(a, b, w - left + 4, c', acc[from + left - 4..from + w], injected)
    ensures forall i :: 0 <= i < acc.Length && !(from <= i < from + w) ==> acc[i] == old(acc[i])
  {
    hide Summed, AddedFour, Pattern;
    ghost var before, digits := acc[..], acc[from + left..from + w];
    var ut := from + left - 4;
    SubSlice(buf[..], from, from + w, left - 4, left);
    SubSlice(before, from, from + left, left - 4, left);
    SubSlice(before, from, from + left, 0, left - 4);
    assert before[from..from + left] == a[..left];
    SubSlice(a, 0, left, left - 4, left);
    SubSlice(a, 0, left, 0, left - 4);
    carry, c' := AddAt(acc, buf, ut, carry0, c);
    SameSlice(acc[..], before, from, ut);
    SameSlice(acc[..], before, from + left, from + w);
    SumFour(a, b, w - left, c, digits, injected, acc[ut..ut + 4], c');
    SliceJoin(acc[..], ut, ut + 4, from + w);
  }

  lemma SumOpen(a: seq<nat>, b: seq<nat>, digits: seq<nat>, c: nat)
    requires |a| == |b| && digits == [] && c <= 1
    ensures Summed(a, b, 0, c, digits, c)
  {
    assert a[|a|..] == [] && b[|b|..] == [];
  }

  lemma SumClose(a: seq<nat>, b: seq<nat>, digits: seq<nat>, carry: nat, injected: nat)
    requires |a| == |b| && Summed(a, b, |a|, carry, digits, injected)
    ensures AreDigits(digits) && carry * Pow(10, |a|) + Val(digits) == Val(a) + Val(b) + injected
  {
    hide Val, Pow;
    assert a[0..] == a && b[0..] == b;
  }
}
