/**
 * Bytes, the little-endian integers the MD decoder reads with fread into
 * uint16_t / uint32_t fields, and the C-string view strcmp takes of a buffer.
 */
module Bytes {

  type Byte = x: int | 0 <= x < 0x100
  type U16 = x: int | 0 <= x < 0x1_0000
  type U32 = x: int | 0 <= x < 0x1_0000_0000

  /**
   * fread of n bytes at offset p gets all of them: a read of nothing always
   * succeeds, even past the end.
   */
  predicate Available(data: seq<Byte>, p: nat, n: nat)
  {
    n == 0 || p + n <= |data|
  }

  /** The uint16_t stored little-endian at offset p. */
  function U16At(data: seq<Byte>, p: nat): U16
    requires p + 2 <= |data|
  {
    data[p] as int + 0x100 * data[p + 1] as int
  }

  /** The uint32_t stored little-endian at offset p. */
  function U32At(data: seq<Byte>, p: nat): U32
    requires p + 4 <= |data|
  {
    U16At(data, p) as int + 0x1_0000 * U16At(data, p + 2) as int
  }

  /** Division by 0x100 is determined by quotient and remainder. */
  lemma DivMod256(x: int, lo: int, hi: int)
    requires 0 <= lo < 0x100 && x == lo + 0x100 * hi
    ensures x / 0x100 == hi && x % 0x100 == lo
  {
  }

  /** The byte digits of x, the high ones taken by repeated division. */
  lemma DivDiv(x: nat)
    ensures x / 0x1_0000 == x / 0x100 / 0x100
    ensures x / 0x100_0000 == x / 0x100 / 0x100 / 0x100
    ensures x == x % 0x100 + 0x100 * ((x / 0x100) % 0x100) + 0x1_0000 * ((x / 0x1_0000) % 0x100) +
                 0x100_0000 * (x / 0x100_0000)
  {
    var q1 := x / 0x100;
    var q2 := q1 / 0x100;
    var q3 := q2 / 0x100;
    assert x == x % 0x100 + 0x100 * q1;
    assert q1 == q1 % 0x100 + 0x100 * q2;
    assert q2 == q2 % 0x100 + 0x100 * q3;
    var low := x % 0x100 + 0x100 * (q1 % 0x100);
    assert x == low + 0x1_0000 * q2;
    var low3 := low + 0x1_0000 * (q2 % 0x100);
    assert x == low3 + 0x100_0000 * q3;
    DivModWide(x, low, q2, 0x1_0000);
    DivModWide(x, low3, q3, 0x100_0000);
  }

  /** Division by 0x1_0000 or 0x100_0000 is determined by quotient and remainder. */
  lemma DivModWide(x: int, lo: int, hi: int, d: int)
    requires d == 0x1_0000 || d == 0x100_0000
    requires 0 <= lo < d && x == lo + d * hi
    ensures x / d == hi
  {
    if d == 0x1_0000 {
      assert x == lo + 0x1_0000 * hi;
    } else {
      assert x == lo + 0x100_0000 * hi;
    }
  }

  /** A u32 reads as v exactly when its four bytes are v's little-endian bytes. */
  lemma U32AtBytes(data: seq<Byte>, p: nat, v: U32)
    requires p + 4 <= |data|
    ensures U32At(data, p) == v <==>
              data[p] == v % 0x100 && data[p + 1] == (v / 0x100) % 0x100 &&
              data[p + 2] == (v / 0x1_0000) % 0x100 && data[p + 3] == v / 0x100_0000
  {
    var w: nat := U32At(data, p);
    var b0: int, b1: int, b2: int, b3: int := data[p], data[p + 1], data[p + 2], data[p + 3];
    assert w == b0 + 0x100 * (b1 + 0x100 * (b2 + 0x100 * b3));
    DivMod256(w, b0, b1 + 0x100 * (b2 + 0x100 * b3));
    DivMod256(w / 0x100, b1, b2 + 0x100 * b3);
    DivMod256(w / 0x100 / 0x100, b2, b3);
    DivDiv(w);
    DivDiv(v);
  }

  /** The bytes of a buffer up to its first NUL: what strcmp compares. */
  function CString(s: seq<Byte>): (r: seq<Byte>)
    ensures 0 !in r
    ensures r <= s
  {
    if s == [] || s[0] == 0 then [] else [s[0]] + CString(s[1..])
  }

  /**
   * strcmp(buffer, t) == 0 for a NUL-free t: the buffer starts with t and,
   * if it is longer, a NUL follows t.
   */
  lemma {:induction false} CStringIs(s: seq<Byte>, t: seq<Byte>)
    requires 0 !in t
    ensures CString(s) == t <==> |t| <= |s| && s[..|t|] == t && (|t| < |s| ==> s[|t|] == 0)
  {
    if t == [] {
    } else if s == [] || s[0] == 0 {
      assert t[0] in t;
    } else {
      CStringIs(s[1..], t[1..]);
      assert CString(s) == [s[0]] + CString(s[1..]);
      if CString(s) == t {
        assert t[0] == s[0] && CString(s[1..]) == t[1..];
      }
      if |t| <= |s| && s[..|t|] == t && (|t| < |s| ==> s[|t|] == 0) {
        assert s[1..][..|t| - 1] == t[1..];
        assert t == [t[0]] + t[1..];
      }
    }
  }
}
