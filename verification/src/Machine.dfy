/** The arithmetic of the LPC2478 target: bytes, 32-bit words, and two's-complement
    wrap-around written out over Dafny's unbounded integers.
 */
module Machine {

  /** Plain `char` is unsigned on this ARM target. */
  type Byte = b: int | 0 <= b < 256

  /** `unsigned`, `unsigned long` and the raw bits of an `int` are all 32 bits wide. */
  type Word = w: int | 0 <= w < 0x1_0000_0000

  type Int32 = i: int | -0x8000_0000 <= i < 0x8000_0000

  datatype Option<T> = None | Some(value: T)

  const INT_MIN: Int32 := -0x8000_0000

  const SPACE: Byte := 32
  const PLUS: Byte := 43
  const MINUS: Byte := 45
  const ZERO: Byte := 48

  function ToWord(x: int): Word {
    x % 0x1_0000_0000
  }

  function ToInt(x: int): Int32 {
    var w := ToWord(x);
    if w < 0x8000_0000 then w else w - 0x1_0000_0000
  }

  function Abs(x: int): nat {
    if x < 0 then -x else x
  }

  /** C's `/` rounds toward zero, unlike Dafny's. */
  function TruncDiv(a: int, b: int): int
    requires b != 0
  {
    if (a < 0) == (b < 0) then Abs(a) / Abs(b) else -(Abs(a) / Abs(b))
  }

  function TruncMod(a: int, b: int): int
    requires b != 0
  {
    a - b * TruncDiv(a, b)
  }

  /** A computed value survives truncation to `int` exactly when it is representable. */
  lemma {:induction false} ToIntExact(x: int)
    ensures ToInt(x) == x <==> -0x8000_0000 <= x < 0x8000_0000
  {}

  lemma {:induction false} ToIntShift(x: int, k: int)
    ensures ToInt(x + k * 0x1_0000_0000) == ToInt(x)
  {}

  /** Some multiple of 2^32 lies between a value and its truncation. */
  lemma {:induction false} ToIntCongruent(x: int) returns (k: int)
    ensures x == ToInt(x) + k * 0x1_0000_0000
  {
    k := (x - ToInt(x)) / 0x1_0000_0000;
  }

  /** Truncating the operands first makes no difference to a truncated difference. */
  lemma {:induction false} ToIntSub(x: int, y: int)
    ensures ToInt(ToInt(x) - ToInt(y)) == ToInt(x - y)
  {
    var j := ToIntCongruent(x);
    var k := ToIntCongruent(y);
    ToIntShift(ToInt(x) - ToInt(y), j - k);
  }

  lemma {:induction false} ToIntAdd(x: int, d: int)
    ensures ToInt(ToInt(x) + d) == ToInt(x + d)
  {
    var k := ToIntCongruent(x);
    ToIntShift(ToInt(x) + d, k);
  }

  lemma {:induction false} ToIntMul(r: int, x: int)
    ensures ToInt(r * ToInt(x)) == ToInt(r * x)
  {
    var k := ToIntCongruent(x);
    assert r * x == r * ToInt(x) + (r * k) * 0x1_0000_0000;
    ToIntShift(r * ToInt(x), r * k);
  }

  /** A word differs from what it was cut from by a multiple of 2^32. */
  lemma {:induction false} ToWordCongruent(x: int) returns (k: int)
    ensures x == ToWord(x) + k * 0x1_0000_0000
  {
    k := x / 0x1_0000_0000;
  }

  lemma {:induction false} ToWordShift(x: int, k: int)
    ensures ToWord(x + k * 0x1_0000_0000) == ToWord(x)
  {}

  lemma {:induction false} ToWordMul(r: int, x: int)
    ensures ToWord(r * ToWord(x)) == ToWord(r * x)
  {
    var k := ToWordCongruent(x);
    assert r * x == r * ToWord(x) + (r * k) * 0x1_0000_0000;
    ToWordShift(r * ToWord(x), r * k);
  }

  /** One Horner step on truncated accumulators agrees with the unbounded one. */
  lemma {:induction false} ToIntHorner(x: int, m: int, d: int)
    ensures ToInt(ToInt(m * ToInt(x)) + d) == ToInt(m * x + d)
  {
    ToIntMul(m, x);
    ToIntAdd(m * x, d);
  }

  // Division by a variable, under names that a proof can hide.

  function Quotient(u: nat, base: nat): nat
    requires base > 0
  {
    u / base
  }

  function Remainder(u: nat, base: nat): (r: nat)
    requires base > 0
    ensures r < base
  {
    u % base
  }

  function Pow(b: nat, k: nat): (p: nat) {
    if k == 0 then 1 else b * Pow(b, k - 1)
  }

  /** `n` copies of a byte, none when `n` is negative: what `while (n-- > 0)` emits. */
  function Fill(c: Byte, n: int): (s: seq<Byte>)
    ensures |s| == if n > 0 then n else 0
    ensures forall i :: 0 <= i < |s| ==> s[i] == c
  {
    if n <= 0 then [] else seq(n, _ => c)
  }

  lemma {:induction false} FillStep(c: Byte, n: nat)
    ensures Fill(c, n + 1) == [c] + Fill(c, n) == Fill(c, n) + [c]
  {}

  /** The bytes of a C string: everything before the terminator. */
  function CString(s: seq<Byte>): (r: seq<Byte>)
    ensures |r| <= |s| && r == s[..|r|]
    ensures 0 !in r
    ensures |r| < |s| ==> s[|r|] == 0
  {
    if s == [] || s[0] == 0 then [] else [s[0]] + CString(s[1..])
  }

  lemma {:induction false} CStringEnds(s: seq<Byte>, i: nat)
    requires i <= |CString(s)|
    ensures i < |s| && s[i] != 0 ==> i < |CString(s)|
    ensures i == |s| || s[i] == 0 ==> s[..i] == CString(s)
  {
    hide CString;
    if i < |CString(s)| {
      assert s[i] == CString(s)[i];
    }
  }

  function Reverse<T>(s: seq<T>): (r: seq<T>)
    ensures |r| == |s|
    ensures forall i :: 0 <= i < |s| ==> r[i] == s[|s| - 1 - i]
  {
    if s == [] then [] else Reverse(s[1..]) + [s[0]]
  }

  lemma {:induction false} ReverseSnoc<T>(s: seq<T>, x: T)
    ensures Reverse(s + [x]) == [x] + Reverse(s)
  {}
}
