/** Machine integers and little-endian byte strings, as the tool lays them out in memory. */
module Bytes {

  type byte = x: int | 0 <= x < 0x100
  type word = x: int | 0 <= x < 0x1_0000
  type dword = x: int | 0 <= x < 0x1_0000_0000

  /** The largest value of a C `int`, the type in which the tool keeps file sizes. */
  const INT_MAX: nat := 0x7FFF_FFFF

  /** Assignment to a `uint16_t`: only the low 16 bits survive. */
  function Wrap16(x: int): word {
    x % 0x1_0000
  }

  /** Assignment to a `uint32_t`: only the low 32 bits survive. */
  function Wrap32(x: int): dword {
    x % 0x1_0000_0000
  }

  lemma Wrap16Is(x: int, q: int, r: int)
    requires x == 0x1_0000 * q + r && 0 <= r < 0x1_0000
    ensures Wrap16(x) == r
  {
  }

  lemma Wrap32Small(x: int)
    requires 0 <= x < 0x1_0000_0000
    ensures Wrap32(x) == x
  {
  }

  lemma Wrap32AtMost(x: nat)
    ensures Wrap32(x) <= x
  {
  }

  /** Wrapping early or late gives the same 16 bits. */
  lemma Wrap16Add(x: int, y: int)
    ensures Wrap16(Wrap16(x) + y) == Wrap16(x + y)
  {
  }

  lemma Wrap32Add(x: int, y: int)
    ensures Wrap32(Wrap32(x) + y) == Wrap32(x + y)
  {
  }

  /** Stepping an even 32-bit cursor by two wraps to zero from the last even value and nowhere else. */
  lemma Wrap32Step(c: dword)
    requires c % 2 == 0
    ensures Wrap32(c + 2) == if c == 0xFFFF_FFFE then 0 else c + 2
  {
  }

  /** A low byte below the rest of a little-endian number. */
  function Join(lo: int, hi: int): int {
    lo + 0x100 * hi
  }

  /** The 16-bit field at offset `i`. */
  function Word(b: seq<byte>, i: nat): word
    requires i + 2 <= |b|
  {
    Join(b[i], b[i + 1])
  }

  /** The value of a little-endian byte string. */
  function Number(s: seq<byte>): nat {
    if s == [] then 0 else Join(s[0], Number(s[1..]))
  }

  /** The first `n` base-256 digits of `v`, the lowest first. */
  function Digits(v: nat, n: nat): (s: seq<byte>)
    ensures |s| == n
    decreases n
  {
    if n == 0 then [] else [v % 0x100] + Digits(v / 0x100, n - 1)
  }

  /** How many numbers `n` bytes can hold. */
  function Scale(n: nat): nat {
    if n == 0 then 1 else 0x100 * Scale(n - 1)
  }

  lemma ScaleOfFour()
    ensures Scale(4) == 0x1_0000_0000
  {
    assert Scale(2) == 0x1_0000;
  }

  /** Reading digits back gives the number, if it fits. */
  lemma {:induction false} NumberOfDigits(v: nat, n: nat)
    requires v < Scale(n)
    ensures Number(Digits(v, n)) == v
    decreases n
  {
    if n > 0 {
      NumberOfDigits(v / 0x100, n - 1);
      assert Digits(v, n)[1..] == Digits(v / 0x100, n - 1);
    }
  }

  /** Every byte string is the digits of its value. */
  lemma {:induction false} DigitsOfNumber(s: seq<byte>)
    ensures Number(s) < Scale(|s|)
    ensures Digits(Number(s), |s|) == s
  {
    if s != [] {
      DigitsOfNumber(s[1..]);
      JoinSplits(s[0], Number(s[1..]));
      hide Join;
    }
  }

  lemma JoinSplits(lo: byte, hi: nat)
    ensures Join(lo, hi) % 0x100 == lo && Join(lo, hi) / 0x100 == hi
    ensures forall n: nat :: hi < n ==> Join(lo, hi) < 0x100 * n
  {
  }

  lemma NumberFits(s: seq<byte>)
    requires |s| == 4
    ensures Number(s) < 0x1_0000_0000
  {
    hide Number;
    DigitsOfNumber(s);
    ScaleOfFour();
  }

  lemma NumberNext(s: seq<byte>, k: nat)
    requires k < |s|
    ensures Number(s[k..]) == Join(s[k], Number(s[k + 1..]))
  {
    assert s[k..][1..] == s[k + 1..];
  }

  lemma NumberOfFour(s: seq<byte>)
    requires |s| == 4
    ensures Number(s) == Join(s[0], Join(s[1], Join(s[2], s[3])))
  {
    assert Number(s[4..]) == 0;
    hide Number;
    assert s[0..] == s;
    NumberNext(s, 0);
    NumberNext(s, 1);
    NumberNext(s, 2);
    NumberNext(s, 3);
  }

  /** The 32-bit field at offset `i`. */
  function Dword(b: seq<byte>, i: nat): dword
    requires i + 4 <= |b|
  {
    NumberFits(b[i..i + 4]);
    Number(b[i..i + 4])
  }

  function Le16(v: word): (s: seq<byte>)
    ensures |s| == 2
  {
    [v % 0x100, v / 0x100]
  }

  function Le32(v: dword): (s: seq<byte>)
    ensures |s| == 4
  {
    Digits(v, 4)
  }

  /** Overwrites the bytes of `b` from offset `i` on with `s`. */
  function Splice(b: seq<byte>, i: nat, s: seq<byte>): (r: seq<byte>)
    requires i + |s| <= |b|
    ensures |r| == |b|
    ensures forall j :: 0 <= j < |b| ==> r[j] == if i <= j < i + |s| then s[j - i] else b[j]
  {
    b[..i] + s + b[i + |s|..]
  }

  function Put16(b: seq<byte>, i: nat, v: word): (r: seq<byte>)
    requires i + 2 <= |b|
    ensures |r| == |b|
  {
    Splice(b, i, Le16(v))
  }

  function Put32(b: seq<byte>, i: nat, v: dword): (r: seq<byte>)
    requires i + 4 <= |b|
    ensures |r| == |b|
  {
    Splice(b, i, Le32(v))
  }

  // ----- reading back what was written

  /** A field that holds the digits of a number reads as that number. */
  lemma DwordInside(s: seq<byte>, i: nat, v: dword)
    requires i + 4 <= |s| && s[i..i + 4] == Le32(v)
    ensures Dword(s, i) == v
  {
    ScaleOfFour();
    NumberOfDigits(v, 4);
  }

  /** The bytes of a field are the digits of what it reads as. */
  lemma Le32OfDword(s: seq<byte>, i: nat)
    requires i + 4 <= |s|
    ensures Le32(Dword(s, i)) == s[i..i + 4]
  {
    DigitsOfNumber(s[i..i + 4]);
  }

  lemma Le32Value(v: dword)
    ensures var s := Le32(v); Join(s[0], Join(s[1], Join(s[2], s[3]))) == v
  {
    ScaleOfFour();
    NumberOfDigits(v, 4);
    NumberOfFour(Le32(v));
  }

  lemma DwordJoined(b: seq<byte>, i: nat)
    requires i + 4 <= |b|
    ensures Dword(b, i) == Join(b[i], Join(b[i + 1], Join(b[i + 2], b[i + 3])))
  {
    NumberOfFour(b[i..i + 4]);
  }

  lemma Le32OfZero()
    ensures Le32(0) == [0, 0, 0, 0]
  {
    assert [0, 0, 0, 0][0..4] == [0, 0, 0, 0];
    DwordJoined([0, 0, 0, 0], 0);
    Le32OfDword([0, 0, 0, 0], 0);
  }

  lemma WordOfPut16(b: seq<byte>, i: nat, v: word)
    requires i + 2 <= |b|
    ensures Word(Put16(b, i, v), i) == v
  {
  }

  lemma DwordOfPut32(b: seq<byte>, i: nat, v: dword)
    requires i + 4 <= |b|
    ensures Dword(Put32(b, i, v), i) == v
  {
    hide Le32, Dword;
    assert Put32(b, i, v)[i..i + 4] == Le32(v);
    DwordInside(Put32(b, i, v), i, v);
  }

  /** Fields with the same bytes read the same. */
  lemma DwordKept(b: seq<byte>, c: seq<byte>, i: nat)
    requires i + 4 <= |b| && i + 4 <= |c|
    requires b[i] == c[i] && b[i + 1] == c[i + 1] && b[i + 2] == c[i + 2] && b[i + 3] == c[i + 3]
    ensures Dword(b, i) == Dword(c, i)
  {
    assert b[i..i + 4] == c[i..i + 4];
  }

  /** A later write to the same place hides an earlier one. */
  lemma SpliceOverwrites(b: seq<byte>, i: nat, s: seq<byte>, t: seq<byte>)
    requires |s| == |t| && i + |s| <= |b|
    ensures Splice(Splice(b, i, s), i, t) == Splice(b, i, t)
  {
  }
}
