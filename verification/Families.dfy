/** Searches steered by a family code: where they land and which devices they then visit. */
module Families {
  import opened Bits
  import opened Lfsr
  import opened RomTree
  import opened Search

  /** The ids of a list that start with a prefix, in order. */
  function Filter(list: seq<Rom>, prefix: seq<bool>): (kept: seq<Rom>)
    requires |prefix| <= BITS
    ensures |kept| <= |list|
  {
    if list == [] then []
    else if list[0][..|prefix|] == prefix then [list[0]] + Filter(list[1..], prefix)
    else Filter(list[1..], prefix)
  }

  lemma {:induction false} FilterAppend(a: seq<Rom>, b: seq<Rom>, prefix: seq<bool>)
    requires |prefix| <= BITS
    ensures Filter(a + b, prefix) == Filter(a, prefix) + Filter(b, prefix)
  {
    if a == [] {
      assert a + b == b;
    } else {
      assert (a + b)[1..] == a[1..] + b;
      FilterAppend(a[1..], b, prefix);
    }
  }

  lemma {:induction false} FilterNone(list: seq<Rom>, prefix: seq<bool>)
    requires |prefix| <= BITS
    requires forall i :: 0 <= i < |list| ==> list[i][..|prefix|] != prefix
    ensures Filter(list, prefix) == []
  {
    if list != [] {
      assert list[0][..|prefix|] != prefix;
      FilterNone(list[1..], prefix);
    }
  }

  lemma {:induction false} FilterSame(list: seq<Rom>, p: seq<bool>, q: seq<bool>)
    requires |p| <= BITS && |q| <= BITS
    requires forall i :: 0 <= i < |list| ==> (list[i][..|p|] == p <==> list[i][..|q|] == q)
    ensures Filter(list, p) == Filter(list, q)
  {
    if list != [] {
      assert list[0][..|p|] == p <==> list[0][..|q|] == q;
      FilterSame(list[1..], p, q);
    }
  }

  /** Filtering keeps exactly the ids with the prefix, and their order. */
  lemma {:induction false} FilterKeeps(pop: set<Rom>, list: seq<Rom>, prefix: seq<bool>)
    requires |prefix| <= BITS && Listing(pop, list)
    ensures Listing(Matching(pop, prefix), Filter(list, prefix))
    decreases |list|
  {
    if list == [] {
      assert Matching(pop, prefix) == {};
    } else {
      var head, rest := list[0], pop - {list[0]};
      assert Listing(rest, list[1..]) by {
        forall r
          ensures r in rest <==> r in list[1..]
        {
          BeforeTotal(head, head);
        }
      }
      FilterKeeps(rest, list[1..], prefix);
      var kept := Filter(list[1..], prefix);
      if head[..|prefix|] == prefix {
        assert Matching(pop, prefix) == Matching(rest, prefix) + {head};
        var all := [head] + kept;
        forall i, j | 0 <= i < j < |all|
          ensures Before(all[i], all[j])
        {
          if i == 0 {
            assert all[j] in kept && all[j] in rest;
            var m: nat :| m < |list[1..]| && list[1..][m] == all[j];
            assert Before(list[0], list[m + 1]);
          } else {
            assert Before(kept[i - 1], kept[j - 1]);
          }
        }
        assert Filter(list, prefix) == all;
      } else {
        assert Matching(pop, prefix) == Matching(rest, prefix);
      }
    }
  }

  lemma FamilyStart(fam: seq<bool>)
    requires |fam| == 8
    ensures var start := StartRom(FamilySetup(fam));
            start[..8] == fam && start[..7] == fam[..7] && start[7] == fam[7] && forall k :: 8 <= k < 56 ==> !start[k]
  {
    var start := StartRom(FamilySetup(fam));
    assert start == (fam + Zeros(BITS - 8))[..63] + [true] + Zeros(0);
    assert start[..8] == fam;
  }

  /** With no device of the family itself, bit 7 is no choice for those that share its low bits. */
  lemma TwinForced(pop: set<Rom>, fam: seq<bool>, start: Rom, r: Rom)
    requires |fam| == 8 && start[..7] == fam[..7] && start[7] == fam[7]
    requires Matching(pop, fam) == {} && r[..7] == fam[..7] && Walks(pop, start, r)
    ensures Walks(pop, start[7 := false], r)
  {
    forall j | 0 <= j < BITS && Split(pop, r, j)
      ensures r[j] == start[7 := false][j]
    {
      if j == 7 {
        var q :| q in pop && q[..7] == r[..7] && q[7] != r[7];
        var both := if q[7] == fam[7] then q else r;
        WholeFamily(pop, fam, both);
      }
    }
  }

  lemma WholeFamily(pop: set<Rom>, fam: seq<bool>, r: Rom)
    requires |fam| == 8 && r in pop && r[..7] == fam[..7] && r[7] == fam[7]
    ensures r in Matching(pop, fam)
  {
    assert r[..8] == r[..7] + [r[7]] == fam[..7] + [fam[7]] == fam;
  }

  /** The first search after owFamilySearchSetup: the first device of that family if there is
      one; else the first of the family that differs in bit 7 only, if there is one. */
  lemma FamilyLanding(pop: set<Rom>, fam: seq<bool>, st': SearchState, ok: bool)
    requires Population(pop) && pop != {} && |fam| == 8
    requires Steps(pop, FamilySetup(fam), st', ok)
    ensures ok && At(pop, st', st'.serial) && st'.serial in pop
    ensures Matching(pop, fam) != {} ==> FirstWith(pop, fam, st'.serial)
    ensures Matching(pop, fam) == {} && Matching(pop, fam[..7]) != {} ==> FirstWith(pop, fam[..7], st'.serial)
  {
    hide Population, StartRom, Steps, FirstWith, Matching, Walks, Determined;
    PopulationDetermined(pop);
    var start := StartRom(FamilySetup(fam));
    FamilyStart(fam);
    Finds(pop, FamilySetup(fam), st', ok);
    var r := st'.serial;
    if Matching(pop, fam) != {} {
      Lands(pop, start, 8, r);
    } else if Matching(pop, fam[..7]) != {} {
      LandsInPrefix(pop, start, 7, r);
      TwinForced(pop, fam, start, r);
      var low: Rom := start[7 := false];
      assert low[..7] == fam[..7];
      Lands(pop, low, 7, r);
    }
  }

  /** Nothing of a prefix comes before the first device with it. */
  lemma FirstWithSuffix(pop: set<Rom>, list: seq<Rom>, prefix: seq<bool>, k: nat)
    requires Listing(pop, list) && k < |list| && |prefix| <= BITS
    requires FirstWith(pop, prefix, list[k])
    ensures Filter(list[k..], prefix) == Filter(list, prefix)
  {
    hide *;
    NoneEarlier(pop, list, prefix, k);
    FilterNone(list[..k], prefix);
    WholeList(list, k);
    FilterAppend(list[..k], list[k..], prefix);
    NothingBefore(Filter(list[k..], prefix));
  }

  lemma WholeList(list: seq<Rom>, k: nat)
    requires k <= |list|
    ensures list == list[..k] + list[k..]
  {}

  lemma NothingBefore(a: seq<Rom>)
    ensures [] + a == a
  {}

  lemma NoneEarlier(pop: set<Rom>, list: seq<Rom>, prefix: seq<bool>, k: nat)
    requires Listing(pop, list) && k < |list| && |prefix| <= BITS
    requires FirstWith(pop, prefix, list[k])
    ensures forall i :: 0 <= i < |list[..k]| ==> list[..k][i][..|prefix|] != prefix
  {
    hide Before;
    forall i | 0 <= i < |list[..k]|
      ensures list[..k][i][..|prefix|] != prefix
    {
      assert list[i] in list;
      ListingOrder(pop, list, i, k);
      BeforeTotal(list[i], list[k]);
    }
  }

  /** What a search for family `fam` that keeps matches of the low seven bits is bound to
      collect: with bit 7 set and that very family present, only that family; otherwise
      every device whose low seven family bits match. */
  ghost function Collected(pop: set<Rom>, list: seq<Rom>, fam: seq<bool>): seq<Rom>
    requires |fam| == 8
  {
    if fam[7] && Matching(pop, fam) != {} then Filter(list, fam) else Filter(list, fam[..7])
  }

  /** From its landing place on, the search meets exactly these devices, in walk order. */
  lemma FromLanding(pop: set<Rom>, list: seq<Rom>, fam: seq<bool>, k: nat)
    requires Listing(pop, list) && k < |list| && |fam| == 8
    requires Matching(pop, fam) != {} ==> FirstWith(pop, fam, list[k])
    requires Matching(pop, fam) == {} && Matching(pop, fam[..7]) != {} ==> FirstWith(pop, fam[..7], list[k])
    ensures Filter(list[k..], fam[..7]) == Collected(pop, list, fam)
  {
    var r := list[k];
    if Matching(pop, fam) != {} {
      assert r[..8] == fam && r[..7] == r[..8][..7];
      if fam[7] {
        forall i | 0 <= i < |list[k..]|
          ensures list[k..][i][..7] == fam[..7] <==> list[k..][i][..8] == fam
        {
          var p := list[k + i];
          if p[..7] == fam[..7] && i > 0 {
            ListingOrder(pop, list, k, k + i);
            SamePrefix(r, p, 7, 7);
            assert r[7] == r[..8][7];
            SamePrefix(r, p, FirstDiff(r, p), 8);
          }
          if p[..8] == fam {
            assert p[..7] == p[..8][..7];
          }
        }
        FilterSame(list[k..], fam[..7], fam);
        FirstWithSuffix(pop, list, fam, k);
      } else {
        forall p | p in Matching(pop, fam[..7])
          ensures p == r || Before(r, p)
        {
          if p[7] {
            assert r[7] == r[..8][7];
            FirstDiffIs(r, p, 7);
          } else {
            assert p[..8] == p[..7] + [p[7]] == fam;
            assert p in Matching(pop, fam);
          }
        }
        assert FirstWith(pop, fam[..7], r);
        FirstWithSuffix(pop, list, fam[..7], k);
      }
    } else if Matching(pop, fam[..7]) != {} {
      FirstWithSuffix(pop, list, fam[..7], k);
    } else {
      forall i | 0 <= i < |list|
        ensures list[i][..7] != fam[..7]
      {
        assert list[i] in list;
        assert list[i] !in Matching(pop, fam[..7]);
      }
      FilterNone(list, fam[..7]);
      FilterNone(list[k..], fam[..7]);
    }
  }

  /** The search collects all devices whose low seven family bits match, exactly unless the
      family asked for has bit 7 set and both it and its twin without bit 7 are present. */
  lemma CollectsAllIff(pop: set<Rom>, list: seq<Rom>, fam: seq<bool>)
    requires Listing(pop, list) && |fam| == 8
    ensures Collected(pop, list, fam) == Filter(list, fam[..7])
        <==> !(fam[7] && Matching(pop, fam) != {} && Matching(pop, fam[7 := false]) != {})
  {
    var twin := fam[7 := false];
    if fam[7] && Matching(pop, fam) != {} {
      if Matching(pop, twin) != {} {
        var q :| q in Matching(pop, twin);
        assert q[..7] == q[..8][..7] == fam[..7] && q[7] == q[..8][7];
        FilterKeeps(pop, list, fam);
        FilterKeeps(pop, list, fam[..7]);
        assert q in Filter(list, fam[..7]);
        assert q !in Matching(pop, fam);
        assert q !in Filter(list, fam);
      } else {
        forall i | 0 <= i < |list|
          ensures list[i][..7] == fam[..7] <==> list[i][..8] == fam
        {
          var p := list[i];
          assert p in list && p !in Matching(pop, twin);
          assert p[..8] == p[..7] + [p[7]];
          assert fam == fam[..7] + [true] && twin == fam[..7] + [false];
          if p[..8] == fam {
            assert p[..7] == p[..8][..7];
          }
        }
        FilterSame(list, fam[..7], fam);
      }
    }
  }

  // ----- a family and its twin -----

  /** Every seven bytes have a CRC byte. */
  lemma CrcByte(bits: seq<bool>) returns (r: Rom)
    requires |bits| == 56
    ensures r[..56] == bits && CrcValid(r)
  {
    hide OverBits, OverByte, Shift, ShiftN, Plus, Unpack, CrcValid, Fits;
    var c := OverBits(Crc8, 0, bits);
    NothingFits();
    BitsFit(Crc8, 0, bits);
    var x := LowByte(c);
    r := bits + Unpack(x);
    assert r[..56] == bits;
    BitsAppend(Crc8, 0, bits, Unpack(x));
    ByteIsBits(Crc8, c, x);
    ByteClears(c, x);
    ValidIs(r);
  }

  lemma ValidIs(r: Rom)
    ensures CrcValid(r) <==> OverBits(Crc8, 0, r) == 0
  {}

  lemma NothingFits()
    ensures Fits(Crc8, 0)
  {}

  /** A CRC8 register value is a byte. */
  lemma LowByte(c: bv16) returns (x: bv8)
    requires Fits(Crc8, c)
    ensures x as bv16 == c
  {
    x := (c & 0xff) as bv8;
  }

  /** Fed with its own value the register ends up empty. */
  lemma ByteClears(c: bv16, x: bv8)
    requires x as bv16 == c
    ensures OverByte(Crc8, c, x) == 0
  {
    hide Shift, Plus;
    PlusZero(c, x as bv16);
    ZeroStays(Crc8, 8);
  }

  /** Whatever non-zero low bits a family code has, there is a bus with valid devices of that
      family and of its twin, on which a search for the one with bit 7 set misses the other. */
  lemma TwinsMissed(low: seq<bool>) returns (pop: set<Rom>)
    requires |low| == 7 && low != Zeros(7)
    ensures Population(pop) && Matching(pop, low + [true]) != {} && Matching(pop, low + [false]) != {}
    ensures forall list :: Listing(pop, list) ==> Collected(pop, list, low + [true]) != Filter(list, low)
  {
    hide CrcValid;
    var a := FamilyMember(low, true);
    var b := FamilyMember(low, false);
    pop := {a, b};
    assert a in Matching(pop, low + [true]) && b in Matching(pop, low + [false]);
    var fam := low + [true];
    assert fam[..7] == low && fam[7 := false] == low + [false];
    forall list | Listing(pop, list)
      ensures Collected(pop, list, fam) != Filter(list, low)
    {
      CollectsAllIff(pop, list, fam);
    }
  }

  lemma FamilyMember(low: seq<bool>, bit: bool) returns (r: Rom)
    requires |low| == 7 && low != Zeros(7)
    ensures CrcValid(r) && HasFamily(r) && r[..8] == low + [bit]
  {
    hide CrcValid;
    var bits := low + [bit] + Zeros(48);
    r := CrcByte(bits);
    assert r[..8] == r[..56][..8] == low + [bit];
    assert (low + [bit])[..7] == low && Zeros(8)[..7] == Zeros(7);
  }
}
