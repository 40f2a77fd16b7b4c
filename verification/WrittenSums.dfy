/**
 The sum behind the PE checksum as the code computes it, which depends on the buffer's address, the size and the header
 offset alone: its value in closed form, and so when the checksum stored is the right one.
 */
module WrittenSums {
  import opened Bytes
  import opened WordSums
  import opened Checksums
  import opened Images
  import opened Seals

  /** The number of times the 16-bit words have wrapped in total when the halved cursor, from 0, reaches `x`. */
  function Wraps(x: nat): int {
    var q, r := x / 0x8000, x % 0x8000;
    0x8000 * (q * (q - 1) / 2) + q * r
  }

  /** The sum of the first `n` words formed from `address`, in closed form. */
  function AddressSum(address: nat, n: nat): int {
    var a := Wrap16(address);
    n * a + n * (n - 1) - 0x1_0000 * Wraps(a / 2 + n)
  }

  lemma TriangleNext(q: int)
    ensures (q + 1) * q / 2 == q * (q - 1) / 2 + q
  {
    assert (q + 1) * q == q * (q - 1) + 2 * q;
  }

  lemma WrapsNext(x: nat)
    ensures Wraps(x + 1) == Wraps(x) + x / 0x8000
  {
    var q, r := x / 0x8000, x % 0x8000;
    if r + 1 < 0x8000 {
      assert (x + 1) / 0x8000 == q && (x + 1) % 0x8000 == r + 1;
      assert q * (r + 1) == q * r + q;
    } else {
      assert (x + 1) / 0x8000 == q + 1 && (x + 1) % 0x8000 == 0;
      TriangleNext(q);
      assert q * r == 0x7FFF * q;
    }
  }

  lemma HalvedWrap(a: word, n: nat)
    ensures Wrap16(a + 2 * n) == a + 2 * n - 0x1_0000 * ((a / 2 + n) / 0x8000)
  {
    var q := (a / 2 + n) / 0x8000;
    var r := (a / 2 + n) % 0x8000;
    assert a + 2 * n == 0x1_0000 * q + (2 * r + a % 2);
    Wrap16Is(a + 2 * n, q, 2 * r + a % 2);
  }

  lemma AddressSumNext(address: nat, n: nat)
    ensures AddressSum(address, n + 1) == AddressSum(address, n) + Wrap16(Wrap16(address) + 2 * n)
  {
    hide Wraps, Wrap16;
    var a := Wrap16(address);
    WrapsNext(a / 2 + n);
    HalvedWrap(a, n);
    assert (n + 1) * a == n * a + a;
    assert (n + 1) * n == n * (n - 1) + 2 * n;
  }

  /** The words formed before the checksum field is blanked. */
  function AddressWords(address: nat, n: nat): (ws: seq<word>)
    ensures |ws| == n
  {
    seq(n, k requires 0 <= k => Wrap16(Wrap16(address) + 2 * k))
  }

  lemma {:induction false} AddressSumIs(address: nat, n: nat, k: nat)
    requires k <= n
    ensures Sum(AddressWords(address, n)[..k]) == AddressSum(address, k)
  {
    hide Sum, AddressSum;
    if k == 0 {
      assert Sum(AddressWords(address, n)[..0]) == 0 by { SumOfNothing(AddressWords(address, n)); }
      AddressSumOfNothing(address);
    } else {
      AddressSumIs(address, n, k - 1);
      SumNext(AddressWords(address, n), k - 1);
      AddressSumNext(address, k - 1);
    }
  }

  /** Before the first wrap the words are an arithmetic progression. */
  lemma AddressSumBelowWrap(address: nat, n: nat)
    requires Wrap16(address) / 2 + n < 0x8000
    ensures AddressSum(address, n) == n * Wrap16(address) + n * (n - 1)
  {
    hide Wrap16;
  }

  lemma AddressSumOfNothing(address: nat)
    ensures AddressSum(address, 0) == 0
  {
    AddressSumBelowWrap(address, 0);
  }

  /** The whole sum: all words but the two blanked, which an odd header offset never meets. */
  function WrittenSum(address: nat, size: nat, peheader: nat): int {
    AddressSum(address, (size + 1) / 2) -
    if peheader % 2 == 0 then Wrap16(Wrap16(address) + peheader + 88) + Wrap16(Wrap16(address) + peheader + 90) else 0
  }

  lemma WrittenWordsAre(address: nat, b: seq<byte>, peheader: nat)
    requires peheader + 92 <= |b| <= INT_MAX
    ensures var ws, i := AddressWords(address, (|b| + 1) / 2), (peheader + 88) / 2;
            && i + 1 < |ws|
            && PeWords(AsWritten(address), b, peheader) == if peheader % 2 == 0 then ws[i := 0][i + 1 := 0] else ws
  {
    hide Wrap16;
    Wrap32Small(peheader + 88);
    Wrap32Small(peheader + 90);
    hide Wrap32;
  }

  /** The code's sum, without looking at the image. */
  lemma WrittenSumIs(address: nat, b: seq<byte>, peheader: nat)
    requires peheader + 92 <= |b| <= INT_MAX
    ensures PeSum(AsWritten(address), b, peheader) == WrittenSum(address, |b|, peheader)
  {
    hide Sum, AddressSum, PeWords, Wrap16;
    var n, i := (|b| + 1) / 2, (peheader + 88) / 2;
    var ws := AddressWords(address, n);
    WrittenWordsAre(address, b, peheader);
    AddressSumIs(address, n, n);
    assert ws[..n] == ws;
    if peheader % 2 == 0 {
      SumWithoutPair(ws, i);
      assert 2 * i == peheader + 88 && 2 * (i + 1) == peheader + 90;
    }
  }

  /** The first two words cannot both be zero. */
  lemma WrittenSumPositive(address: nat, b: seq<byte>, peheader: nat)
    requires peheader + 92 <= |b| <= INT_MAX
    ensures PeSum(AsWritten(address), b, peheader) > 0
  {
    hide Sum;
    var ws := PeWords(AsWritten(address), b, peheader);
    Wrap32Small(peheader + 88);
    Wrap32Small(peheader + 90);
    assert ws[0] == Wrap16(address) && ws[1] == Wrap16(Wrap16(address) + 2);
    SumAtLeast(ws, 0);
    SumAtLeast(ws, 1);
  }

  /** The residue modulo 65535 that the meant sum must have for the code's checksum to be right. */
  function WrittenResidue(address: nat, size: nat, peheader: nat): nat {
    var s := WrittenSum(address, size, peheader);
    (s - if peheader % 2 == 0 then 0 else 0x100 * (s + size)) % 0xFFFF
  }

  /** As written, the checksum stored is that of the finished image exactly when the meant sum of the cleared image has
      one particular residue, fixed by the address, the size and the header offset. */
  lemma WrittenPeSealed(address: nat, b: seq<byte>, peheader: nat)
    requires peheader + 92 <= |b| <= INT_MAX && b[0] != 0
    ensures PeSealed(PatchPe(AsWritten(address), b, peheader), peheader) <==>
              PeSum(AsMeant, Put32(b, peheader + PE_CHECKSUM, 0), peheader) % 0xFFFF ==
              WrittenResidue(address, |b|, peheader)
  {
    hide PeSealed, PatchPe, PeSum, WrittenSum, Put32;
    var cleared := Put32(b, peheader + PE_CHECKSUM, 0);
    PatchedPeSealed(AsWritten(address), b, peheader);
    WrittenSumIs(address, cleared, peheader);
    WrittenSumPositive(address, cleared, peheader);
    var s := WrittenSum(address, |b|, peheader);
    SameRemainder(s - (if peheader % 2 == 0 then 0 else 0x100 * (s + |b|)), PeSum(AsMeant, cleared, peheader));
  }

  lemma SameRemainder(x: int, y: int)
    ensures (x - y) % 0xFFFF == 0 <==> y % 0xFFFF == x % 0xFFFF
  {
    var q, r := x / 0xFFFF, y / 0xFFFF;
    assert x - y == 0xFFFF * (q - r) + (x % 0xFFFF - y % 0xFFFF);
  }
}
