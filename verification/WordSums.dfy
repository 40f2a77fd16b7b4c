/** Sums of 16-bit words, their end-around-carry fold, and the words of a byte string. */
module WordSums {
  import opened Bytes

  /** The unbounded sum of a word sequence. */
  function Sum(ws: seq<word>): nat {
    if ws == [] then 0 else Sum(ws[..|ws| - 1]) + ws[|ws| - 1]
  }

  lemma {:induction false} SumAppend(a: seq<word>, b: seq<word>)
    ensures Sum(a + b) == Sum(a) + Sum(b)
  {
    if b == [] {
      assert a + b == a;
    } else {
      var n := |b| - 1;
      assert (a + b)[..|a + b| - 1] == a + b[..n];
      SumAppend(a, b[..n]);
    }
  }

  lemma SumNext(ws: seq<word>, k: nat)
    requires k < |ws|
    ensures Sum(ws[..k + 1]) == Sum(ws[..k]) + ws[k]
  {
    assert ws[..k + 1][..k] == ws[..k];
  }

  lemma SumOfNothing(ws: seq<word>)
    ensures Sum(ws[..0]) == 0
  {
  }

  /** A 16-bit accumulator holds the sum so far modulo 65536. */
  lemma WrappedSumNext(ws: seq<word>, k: nat)
    requires k < |ws|
    ensures Wrap16(Sum(ws[..k + 1])) == Wrap16(Wrap16(Sum(ws[..k])) + ws[k])
  {
    SumNext(ws, k);
    Wrap16Add(Sum(ws[..k]), ws[k]);
  }

  lemma {:induction false} SumUpdate(ws: seq<word>, i: nat, x: word)
    requires i < |ws|
    ensures Sum(ws[i := x]) == Sum(ws) - ws[i] + x
  {
    var n := |ws| - 1;
    if i == n {
      assert ws[i := x][..n] == ws[..n];
    } else {
      assert ws[i := x][..n] == ws[..n][i := x];
      SumUpdate(ws[..n], i, x);
    }
  }

  lemma SumWithoutPair(ws: seq<word>, i: nat)
    requires i + 1 < |ws|
    ensures Sum(ws[i := 0][i + 1 := 0]) == Sum(ws) - ws[i] - ws[i + 1]
  {
    hide Sum;
    SumUpdate(ws, i, 0);
    SumUpdate(ws[i := 0], i + 1, 0);
  }

  lemma {:induction false} SumAtLeast(ws: seq<word>, i: nat)
    requires i < |ws|
    ensures ws[i] <= Sum(ws)
  {
    if i < |ws| - 1 {
      SumAtLeast(ws[..|ws| - 1], i);
    }
  }

  /** The sum does not depend on the order of the words. */
  lemma {:induction false} SumPermutation(a: seq<word>, b: seq<word>)
    requires multiset(a) == multiset(b)
    ensures Sum(a) == Sum(b)
    decreases |a|
  {
    assert |a| == |multiset(a)| == |multiset(b)| == |b|;
    if a != [] {
      var n := |a| - 1;
      var x := a[n];
      assert x in multiset(b);
      var i :| 0 <= i < |b| && b[i] == x;
      var rest := b[..i] + b[i + 1..];
      assert b == b[..i] + [x] + b[i + 1..];
      assert a == a[..n] + [x];
      assert multiset(rest) == multiset(b) - multiset{x};
      assert multiset(a[..n]) == multiset(a) - multiset{x};
      SumPermutation(a[..n], rest);
      SumAppend(b[..i], [x]);
      SumAppend(b[..i] + [x], b[i + 1..]);
      SumAppend(b[..i], b[i + 1..]);
      assert Sum([x]) == x;
    }
  }

  // ----- the end-around-carry fold

  /** Casting out 65535s: the one's-complement representative of `s`, which is 0 only for 0. */
  function Fold(s: nat): word {
    if s <= 0xFFFF then s else Fold(s - 0xFFFF)
  }

  lemma {:induction false} FoldPositive(s: nat)
    ensures Fold(s) == 0 <==> s == 0
  {
    if s > 0xFFFF {
      FoldPositive(s - 0xFFFF);
    }
  }

  /** The fold stays in the residue class of the sum. */
  lemma {:induction false} FoldResidue(s: nat) returns (q: nat)
    ensures s == Fold(s) + 0xFFFF * q
  {
    q := 0;
    if s > 0xFFFF {
      q := FoldResidue(s - 0xFFFF);
      q := q + 1;
    }
  }

  /** The closed form: 0 for 0, and otherwise the representative of `s` in 1..65535. */
  lemma FoldClosedForm(s: nat)
    ensures Fold(s) == if s == 0 then 0 else (s - 1) % 0xFFFF + 1
  {
    FoldPositive(s);
    var q := FoldResidue(s);
  }

  /** The fold identifies two sums exactly when they agree modulo 65535 and on being zero. */
  lemma FoldEqual(s: nat, t: nat)
    ensures Fold(s) == Fold(t) <==> (s - t) % 0xFFFF == 0 && (s == 0 <==> t == 0)
  {
    FoldPositive(s);
    FoldPositive(t);
    var q: int := FoldResidue(s);
    var r: int := FoldResidue(t);
    if Fold(s) == Fold(t) {
      assert s - t == 0xFFFF * (q - r);
    }
  }

  lemma FoldCongruent(s: nat, t: nat, k: int)
    requires s - t == 0xFFFF * k && (s == 0 <==> t == 0)
    ensures Fold(s) == Fold(t)
  {
    hide Fold;
    assert (0xFFFF * k) % 0xFFFF == 0;
    FoldEqual(s, t);
  }

  /** Folding the running sum as each word is added gives the fold of the whole. */
  lemma {:induction false} FoldAdd(s: nat, w: nat)
    ensures Fold(s + w) == Fold(Fold(s) + w)
  {
    if s > 0xFFFF {
      FoldAdd(s - 0xFFFF, w);
    }
  }

  /** One masking step of the tool: add the carry back and keep 16 bits. */
  function Carry(t: dword): word {
    Wrap16(Wrap32(t + t / 0x1_0000))
  }

  /** Up to 0x1FFFE a masking step folds, and nothing is lost above bit 16. */
  lemma CarryFolds(t: dword)
    requires t <= 0x1_FFFE
    ensures t + t / 0x1_0000 <= 0x1_FFFF
    ensures Carry(t) == Fold(t)
  {
    var u := if t <= 0xFFFF then t else t + 1;
    assert t + t / 0x1_0000 == u;
    Wrap32Small(u);
    Wrap16Is(u, u - t, if t <= 0xFFFF then t else t - 0xFFFF);
  }

  /** The accumulator update of the PE loop, on an accumulator that holds a folded sum. */
  method AddWithCarry(checkSum: dword, val: word, ghost s: nat) returns (r: dword)
    requires checkSum == Fold(s)
    ensures r == Fold(s + val)
  {
    FoldAdd(s, val);
    CarryFolds(checkSum + val);
    Wrap32Small(checkSum + val);
    r := Carry(Wrap32(checkSum + val));
  }

  /** Replacing one word goes unnoticed exactly when 0 and 0xFFFF trade places beside a non-zero rest. */
  lemma WordChangeNoticed(ws: seq<word>, k: nat, v: word)
    requires k < |ws|
    ensures Fold(Sum(ws[k := v])) == Fold(Sum(ws)) <==>
              v == ws[k] || ({v, ws[k]} == {0, 0xFFFF} && Sum(ws) > ws[k])
  {
    SumUpdate(ws, k, v);
    SumAtLeast(ws, k);
    FoldEqual(Sum(ws[k := v]), Sum(ws));
    assert 0 in {v, ws[k]} <==> v == 0 || ws[k] == 0;
    assert 0xFFFF in {v, ws[k]} <==> v == 0xFFFF || ws[k] == 0xFFFF;
  }

  // ----- words of a byte string

  /** Byte `i`, reading zero past the end. */
  function ByteAt(b: seq<byte>, i: nat): byte {
    if i < |b| then b[i] else 0
  }

  /** The aligned little-endian words of `b`, an odd last byte padded with zero. */
  function Words(b: seq<byte>): (ws: seq<word>)
    ensures |ws| == (|b| + 1) / 2
  {
    seq((|b| + 1) / 2, k requires 0 <= k => Join(ByteAt(b, 2 * k), ByteAt(b, 2 * k + 1)))
  }

  lemma WordsAt(b: seq<byte>, k: nat)
    requires k < |Words(b)|
    ensures Words(b)[k] == Join(ByteAt(b, 2 * k), ByteAt(b, 2 * k + 1))
    ensures 2 * k + 2 <= |b| ==> Words(b)[k] == Word(b, 2 * k)
  {
  }

  /** What a value `d` at byte offset `i` contributes to the sum. */
  function Weighed(d: int, i: nat): int {
    if i % 2 == 0 then d else 0x100 * d
  }

  /** A byte's worth of difference, at either weight, is never a multiple of 65535. */
  lemma ByteDifferenceNoticed(s: nat, t: nat, d: int, i: nat)
    requires t == s + Weighed(d, i) && d != 0 && -0x100 < d < 0x100
    ensures Fold(s) != Fold(t)
  {
    FoldEqual(s, t);
  }

  lemma WordsOfUpdate(b: seq<byte>, i: nat, x: byte)
    requires i < |b|
    ensures 0 <= Words(b)[i / 2] + Weighed(x - b[i], i) < 0x1_0000
    ensures Words(b[i := x]) == Words(b)[i / 2 := Words(b)[i / 2] + Weighed(x - b[i], i)]
  {
  }

  lemma SumOfUpdate(b: seq<byte>, i: nat, x: byte)
    requires i < |b|
    ensures Sum(Words(b[i := x])) == Sum(Words(b)) + Weighed(x - b[i], i)
  {
    WordsOfUpdate(b, i, x);
    SumUpdate(Words(b), i / 2, Words(b)[i / 2] + Weighed(x - b[i], i));
  }

  // ----- blocks

  lemma SumOfAppended(b: seq<byte>, x: byte)
    ensures Sum(Words(b + [x])) == Sum(Words(b)) + Weighed(x, |b|)
  {
    hide Sum;
    var z := b + [0];
    SumOfUpdate(z, |b|, x);
    assert b + [x] == z[|b| := x];
    SumOfPadded(b);
  }

  lemma SumOfPadded(b: seq<byte>)
    ensures Sum(Words(b + [0])) == Sum(Words(b))
  {
    hide Sum;
    var ws := Words(b + [0]);
    if |b| % 2 == 0 {
      var n := |b| / 2;
      assert ws[n] == 0 && ws[..n] == Words(b) && ws[..n + 1] == ws;
      SumNext(ws, n);
    } else {
      assert ws == Words(b);
    }
  }

  /** What the bytes of a block contribute when it starts at an odd offset. */
  function Shifted(s: nat, start: nat): nat {
    if start % 2 == 0 then s else 0x100 * s
  }

  lemma NothingShifted(start: nat)
    ensures Shifted(0, start) == 0
  {
  }

  /** A byte at offset `n` of a block that starts at `start`, against the same byte of the block on its own. */
  lemma AppendedByte(t: nat, x: byte, start: nat, n: nat)
    ensures t + Weighed(x, n) >= 0
    ensures Shifted(t, start) + Weighed(x, start + n) + (if start % 2 == 1 && n % 2 == 1 then 0xFFFF * x else 0) ==
            Shifted(t + Weighed(x, n), start)
  {
  }

  lemma {:induction false} SumOfConcatenation(a: seq<byte>, b: seq<byte>) returns (m: nat)
    ensures Sum(Words(a + b)) + 0xFFFF * m == Sum(Words(a)) + Shifted(Sum(Words(b)), |a|)
    ensures Sum(Words(a + b)) == 0 <==> Sum(Words(a)) == 0 && Sum(Words(b)) == 0
  {
    hide Sum, Words, Shifted;
    if b == [] {
      assert a + b == a;
      assert Shifted(0, |a|) == 0 by { NothingShifted(|a|); }
      assert Sum(Words(b)) == 0 by { NoWords(); }
      m := 0;
    } else {
      var n := |b| - 1;
      var x := b[n];
      assert a + b == (a + b[..n]) + [x] && b == b[..n] + [x];
      m := SumOfConcatenation(a, b[..n]);
      SumOfAppended(a + b[..n], x);
      SumOfAppended(b[..n], x);
      AppendedByte(Sum(Words(b[..n])), x, |a|, n);
      if |a| % 2 == 1 && n % 2 == 1 {
        m := m + x;
      }
    }
  }

  lemma NoWords()
    ensures Sum(Words([])) == 0
  {
  }

  /** The folded sum of a concatenation is the fold of the folded sums of its parts, the second one byte-shifted when
      the first has odd length. */
  lemma FoldOfConcatenation(a: seq<byte>, b: seq<byte>)
    ensures Fold(Sum(Words(a + b))) == Fold(Fold(Sum(Words(a))) + Shifted(Fold(Sum(Words(b))), |a|))
  {
    hide Sum, Words, Fold;
    var s, t := Sum(Words(a)), Sum(Words(b));
    var m: int := SumOfConcatenation(a, b);
    var q: int := FoldResidue(s);
    var r: int := FoldResidue(t);
    FoldPositive(s);
    FoldPositive(t);
    var k := (if |a| % 2 == 0 then r else 0x100 * r) + q - m;
    FoldCongruent(Sum(Words(a + b)), Fold(s) + Shifted(Fold(t), |a|), k);
  }
}
