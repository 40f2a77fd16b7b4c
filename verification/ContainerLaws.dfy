/** What the container format determines: the reader inverts the writer both ways, and a body change stays local. */
module ContainerLaws {
  import opened Bytes
  import opened Images
  import opened Containers

  // ----- the other direction: tight containers are exactly the tool's own

  /** The entries of `c` describe its members laid out as the tool lays them out, to the end of the file. */
  predicate Tight(c: seq<byte>, ms: seq<Member>) {
    && ReadContainer(c) == Contents(ms)
    && Sized(ms)
    && |c| == Position(ms, |ms|)
    && forall i :: 0 <= i < |ms| ==> ReadArch(c, i).offset == Position(ms, i) && ReadArch(c, i).align == 0
  }

  lemma SliceOfSlice(c: seq<byte>, a: nat, b: nat, lo: nat, hi: nat)
    requires a <= b <= |c| && lo <= hi <= b - a
    ensures c[a..b][lo..hi] == c[a + lo..a + hi]
  {
    forall k | 0 <= k < hi - lo
      ensures c[a..b][lo..hi][k] == c[a + lo..a + hi][k]
    {
      assert c[a..b][lo + k] == c[a + (lo + k)];
    }
  }

  lemma TableNext(t: seq<FatArch>)
    requires t != []
    ensures TableBytes(t) == TableBytes(t[..|t| - 1]) + ArchBytes(t[|t| - 1])
  {
  }

  lemma {:induction false} TableFromEntries(t: seq<FatArch>, s: seq<byte>)
    requires |s| == ARCH_SIZE * |t|
    requires forall i :: 0 <= i < |t| ==> s[ARCH_SIZE * i..ARCH_SIZE * (i + 1)] == ArchBytes(t[i])
    ensures s == TableBytes(t)
  {
    hide ArchBytes, TableBytes;
    if t == [] {
      assert TableBytes(t) == [];
    } else {
      var n := |t| - 1;
      var head, last := s[0..ARCH_SIZE * n], s[ARCH_SIZE * n..ARCH_SIZE * (n + 1)];
      forall i | 0 <= i < n
        ensures head[ARCH_SIZE * i..ARCH_SIZE * (i + 1)] == ArchBytes(t[..n][i])
      {
        SliceOfSlice(s, 0, ARCH_SIZE * n, ARCH_SIZE * i, ARCH_SIZE * (i + 1));
      }
      TableFromEntries(t[..n], head);
      TableNext(t);
      assert s == head + last;
    }
  }

  lemma {:induction false} BodiesFromSlices(c: seq<byte>, ms: seq<Member>, n: nat)
    requires n <= |ms| && Position(ms, |ms|) <= |c|
    requires forall i :: 0 <= i < |ms| ==>
               Position(ms, i) + |ms[i].image| <= |c| &&
               c[Position(ms, i)..Position(ms, i) + |ms[i].image|] == ms[i].image
    ensures Position(ms, 0) <= Position(ms, n) <= |c|
    ensures c[Position(ms, 0)..Position(ms, n)] == Bodies(ms[..n])
  {
    hide Position, BodySize;
    PositionMonotone(ms, 0, n);
    PositionMonotone(ms, n, |ms|);
    if n > 0 {
      BodiesFromSlices(c, ms, n - 1);
      PositionNext(ms, n - 1);
      assert ms[..n][..n - 1] == ms[..n - 1];
      var a, b, d := Position(ms, 0), Position(ms, n - 1), Position(ms, n);
      assert c[a..d] == c[a..b] + c[b..d];
    }
  }

  lemma TightEntries(c: seq<byte>, ms: seq<Member>, i: nat)
    requires Tight(c, ms) && i < |ms|
    ensures HasTable(c) && Dword(c, 4) == |ms|
    ensures HasSlice(c, ReadArch(c, i)) && Slice(c, ReadArch(c, i)) == ms[i]
    ensures ReadArch(c, i) == Plan(ms)[i]
  {
    hide ReadArch, Position, Dword;
    assert HasTable(c) && Dword(c, 4) == |ms|;
    assert HasSlice(c, ReadArch(c, i)) && Slice(c, ReadArch(c, i)) == ms[i];
    Wrap32Small(Position(ms, i));
  }

  lemma TightTable(c: seq<byte>, ms: seq<Member>)
    requires Tight(c, ms)
    ensures HEADER_SIZE + ARCH_SIZE * |ms| <= |c|
    ensures c[HEADER_SIZE..HEADER_SIZE + ARCH_SIZE * |ms|] == TableBytes(Plan(ms))
  {
    hide Dword, ParseArch, ArchBytes, Plan, TableBytes, HasSlice, Slice, ReadContainer;
    assert HEADER_SIZE + ARCH_SIZE * |ms| <= Position(ms, |ms|);
    var s := c[HEADER_SIZE..HEADER_SIZE + ARCH_SIZE * |ms|];
    forall i | 0 <= i < |ms|
      ensures s[ARCH_SIZE * i..ARCH_SIZE * (i + 1)] == ArchBytes(Plan(ms)[i])
    {
      TightEntries(c, ms, i);
      var e := c[HEADER_SIZE + ARCH_SIZE * i..HEADER_SIZE + ARCH_SIZE * (i + 1)];
      SliceOfSlice(c, HEADER_SIZE, HEADER_SIZE + ARCH_SIZE * |ms|, ARCH_SIZE * i, ARCH_SIZE * (i + 1));
      ArchBytesOfParse(e);
    }
    TableFromEntries(Plan(ms), s);
  }

  lemma TightHeader(c: seq<byte>, ms: seq<Member>)
    requires Tight(c, ms)
    ensures |c| >= HEADER_SIZE && c[..HEADER_SIZE] == HeaderBytes(|ms|)
  {
    hide Dword, Le32, Position, ReadArch, HasSlice, Slice;
    assert HasTable(c) && Dword(c, 4) == |ms|;
    Le32OfDword(c, 0);
    Le32OfDword(c, 4);
    assert c[..HEADER_SIZE] == c[0..4] + c[4..8];
  }

  lemma TightBodies(c: seq<byte>, ms: seq<Member>)
    requires Tight(c, ms)
    ensures Position(ms, 0) <= |c| && c[Position(ms, 0)..] == Bodies(ms)
  {
    hide Position, Bodies, ReadArch, Plan, ReadContainer, HasTable;
    forall i | 0 <= i < |ms|
      ensures Position(ms, i) + |ms[i].image| <= |c| && c[Position(ms, i)..Position(ms, i) + |ms[i].image|] == ms[i].image
    {
      TightEntries(c, ms, i);
    }
    BodiesFromSlices(c, ms, |ms|);
    assert ms[..|ms|] == ms;
  }

  /** Packing the members of a tight container again gives the same container, byte for byte. */
  lemma RepackTight(c: seq<byte>, ms: seq<Member>)
    requires Tight(c, ms)
    ensures Sized(ms)
    ensures c == Container(ms)
  {
    hide ReadContainer, ReadArch, HeaderBytes, TableBytes, Bodies, Plan;
    TightHeader(c, ms);
    TightTable(c, ms);
    TightBodies(c, ms);
    var k := HEADER_SIZE + ARCH_SIZE * |ms|;
    assert Position(ms, 0) == k;
    assert c == c[..HEADER_SIZE] + c[HEADER_SIZE..k] + c[k..];
  }

  /** The tool's output is tight. */
  lemma ContainerTight(ms: seq<Member>)
    requires Sized(ms) && Addressable(ms)
    ensures Tight(Container(ms), ms)
  {
    hide Container, Position, ReadContainer, ReadArch, HasTable, BodySize;
    RoundTrip(ms);
    LayoutIsTight(ms);
    ContainerHasTable(ms);
    forall i | 0 <= i < |ms|
      ensures ReadArch(Container(ms), i).offset == Position(ms, i) && ReadArch(Container(ms), i).align == 0
    {
      ContainerEntry(ms, i);
    }
  }

  /** Two addressable member lists with the same container are the same list. */
  lemma ContainerInjective(ms: seq<Member>, ns: seq<Member>)
    requires Sized(ms) && Addressable(ms) && Sized(ns) && Addressable(ns)
    requires Container(ms) == Container(ns)
    ensures ms == ns
  {
    RoundTrip(ms);
    RoundTrip(ns);
  }

  lemma {:induction false} SameSizesSamePlaces(ms: seq<Member>, ns: seq<Member>, k: nat)
    requires |ms| == |ns| && k <= |ms|
    requires forall i :: 0 <= i < |ms| ==> |ns[i].image| == |ms[i].image|
    ensures BodySize(ns[..k]) == BodySize(ms[..k])
  {
    if k > 0 {
      SameSizesSamePlaces(ms, ns, k - 1);
      assert ms[..k][..k - 1] == ms[..k - 1] && ns[..k][..k - 1] == ns[..k - 1];
    }
  }

  /** Lists that agree in all sizes have the same container only if they agree in everything, however large the file. */
  lemma SameSizesInjective(ms: seq<Member>, ns: seq<Member>)
    requires Sized(ms) && Sized(ns) && |ms| == |ns|
    requires forall i :: 0 <= i < |ms| ==> |ns[i].image| == |ms[i].image|
    ensures Container(ms) == Container(ns) <==> ms == ns
  {
    hide Container, BodySize, Wrap32;
    if Container(ms) == Container(ns) {
      ContainerHasTable(ms);
      ContainerHasTable(ns);
      forall i | 0 <= i < |ms|
        ensures ms[i] == ns[i]
      {
        SameSizesSamePlaces(ms, ns, i);
        ContainerBody(ms, i);
        ContainerBody(ns, i);
        ContainerEntry(ms, i);
        ContainerEntry(ns, i);
      }
    }
  }

  // ----- changing one byte of a body

  /** Member `i` with byte `j` of its image replaced. */
  function Tampered(ms: seq<Member>, i: nat, j: nat, x: byte): (r: seq<Member>)
    requires i < |ms| && j < |ms[i].image|
    ensures |r| == |ms|
  {
    ms[i := ms[i].(image := ms[i].image[j := x])]
  }

  lemma {:induction false} BodySizeTampered(ms: seq<Member>, i: nat, j: nat, x: byte, n: nat)
    requires i < |ms| && j < |ms[i].image| && n <= |ms|
    ensures BodySize(Tampered(ms, i, j, x)[..n]) == BodySize(ms[..n])
  {
    if n > 0 {
      var ns := Tampered(ms, i, j, x);
      BodySizeTampered(ms, i, j, x, n - 1);
      assert ms[..n][..n - 1] == ms[..n - 1] && ns[..n][..n - 1] == ns[..n - 1];
    }
  }

  lemma TamperTail(head: seq<byte>, tail: seq<byte>, k: nat, x: byte)
    requires k < |tail|
    ensures head + tail[k := x] == (head + tail)[|head| + k := x]
  {
  }

  lemma TamperHead(head: seq<byte>, tail: seq<byte>, k: nat, x: byte)
    requires k < |head|
    ensures head[k := x] + tail == (head + tail)[k := x]
  {
  }

  lemma {:induction false} BodiesTampered(ms: seq<Member>, i: nat, j: nat, x: byte)
    requires i < |ms| && j < |ms[i].image|
    ensures BodySize(ms[..i]) + j < |Bodies(ms)|
    ensures Bodies(Tampered(ms, i, j, x)) == Bodies(ms)[BodySize(ms[..i]) + j := x]
  {
    hide BodySize;
    var n := |ms| - 1;
    var ns := Tampered(ms, i, j, x);
    BodiesLength(ms[..n]);
    if i < n {
      assert ms[..n][..i] == ms[..i];
      assert ns[..n] == Tampered(ms[..n], i, j, x);
      BodiesTampered(ms[..n], i, j, x);
      TamperHead(Bodies(ms[..n]), ms[n].image, BodySize(ms[..i]) + j, x);
    } else {
      assert ns[..n] == ms[..n];
      TamperTail(Bodies(ms[..n]), ms[n].image, j, x);
    }
  }

  /** Replacing a byte inside a body's slice of the file is replacing it in that member, and nothing else. */
  lemma ContainerTampered(ms: seq<Member>, i: nat, j: nat, x: byte)
    requires Sized(ms) && i < |ms| && j < |ms[i].image|
    ensures Sized(Tampered(ms, i, j, x))
    ensures Position(ms, i) + j < |Container(ms)|
    ensures Container(Tampered(ms, i, j, x)) == Container(ms)[Position(ms, i) + j := x]
  {
    hide HeaderBytes, TableBytes, Bodies, BodySize;
    var ns := Tampered(ms, i, j, x);
    forall k | 0 <= k <= |ms|
      ensures Position(ns, k) == Position(ms, k)
    {
      BodySizeTampered(ms, i, j, x, k);
    }
    assert Plan(ns) == Plan(ms);
    BodiesTampered(ms, i, j, x);
    TamperTail(HeaderBytes(|ms|) + TableBytes(Plan(ms)), Bodies(ms), BodySize(ms[..i]) + j, x);
  }

  /** Reading a container with one body byte replaced shows that byte replaced in that member and every other member
      untouched. */
  lemma TamperingIsLocal(ms: seq<Member>, i: nat, j: nat, x: byte)
    requires Sized(ms) && Addressable(ms) && i < |ms| && j < |ms[i].image|
    ensures Position(ms, i) + j < |Container(ms)|
    ensures ReadContainer(Container(ms)[Position(ms, i) + j := x]) == Contents(Tampered(ms, i, j, x))
  {
    hide Container, BodySize, ReadContainer;
    ContainerTampered(ms, i, j, x);
    var ns := Tampered(ms, i, j, x);
    forall k | 0 <= k < |ns|
      ensures Position(ns, k) < 0x1_0000_0000
    {
      BodySizeTampered(ms, i, j, x, k);
      assert Position(ms, k) < 0x1_0000_0000;
    }
    RoundTrip(ns);
  }
}
