/** findtype.c: collecting the devices of one family. */
module FindType {
  import opened Bits
  import opened Lfsr
  import opened RomTree
  import opened Search
  import opened Families
  import opened LibUsbNet

  lemma SomeAnswer(pop: set<Rom>, start: Rom) returns (reply: Reply)
    ensures Answers(pop, start, reply)
  {
    var f := RomTree.Search(pop, start);
    reply := if pop == {} then Silent
             else Answer(f.rom, f.marks, forall i :: 0 <= i < BITS && f.marks[i] ==> f.rom[i]);
  }

  /** One call of the method on a fault-free bus is one step of the search among the devices that
      answer its command. */
  lemma CallSteps(pop: set<Rom>, adapter: Adapter, cmd: bv8, st: SearchState, sent: seq<bv8>, st': SearchState, rt: bool)
    requires Serves(pop, adapter, cmd) && |sent| == 8
    requires !st.lastDevice && pop != {} ==> Stream(sent) == StartRom(st)
    requires (st', rt) == Next(st, true, pop != {}, Seen(adapter(cmd, sent)))
    ensures Steps(pop, st, st', rt)
  {
    hide Stream, StartRom;
    if st.lastDevice || pop == {} {
      var reply := SomeAnswer(pop, StartRom(st));
      assert (st', rt) == Next(st, true, pop != {}, reply);
    } else {
      assert Answers(pop, Stream(sent), Seen(adapter(cmd, sent)));
    }
  }

  function Ids(bytes: seq<seq<bv8>>): seq<Rom>
    requires forall i :: 0 <= i < |bytes| ==> |bytes[i]| == 8
  {
    seq(|bytes|, i requires 0 <= i < |bytes| => Stream(bytes[i]))
  }

  lemma FilterOne(r: Rom, prefix: seq<bool>)
    requires |prefix| <= BITS
    ensures Filter([r], prefix) == if r[..|prefix|] == prefix then [r] else []
  {
    assert [r][1..] == [];
    assert Filter([], prefix) == [];
  }

  lemma FilterStep(list: seq<Rom>, k0: nat, k: nat, prefix: seq<bool>)
    requires k0 <= k < |list| && |prefix| <= BITS
    ensures Filter(list[k0..k + 1], prefix)
         == Filter(list[k0..k], prefix) + if list[k][..|prefix|] == prefix then [list[k]] else []
  {
    hide *;
    SliceSnoc(list, k0, k);
    FilterSnoc(list[k0..k], list[k], prefix);
  }

  lemma SliceSnoc(list: seq<Rom>, k0: nat, k: nat)
    requires k0 <= k < |list|
    ensures list[k0..k + 1] == list[k0..k] + [list[k]]
  {}

  lemma FilterSnoc(a: seq<Rom>, r: Rom, prefix: seq<bool>)
    requires |prefix| <= BITS
    ensures Filter(a + [r], prefix) == Filter(a, prefix) + if r[..|prefix|] == prefix then [r] else []
  {
    hide *;
    FilterAppend(a, [r], prefix);
    FilterOne(r, prefix);
  }

  lemma BitOfByte(x: bv8, k: nat)
    requires k < 8
    ensures Unpack(x)[k] == (x & Mask(k) != 0)
  {
    LowBitsAt(x, 8, k);
  }

  /** The masked comparison of family bytes looks at the low seven bits. */
  lemma LowSeven(a: bv8, b: bv8)
    ensures (a & 0x7F == b & 0x7F) <==> Unpack(a)[..7] == Unpack(b)[..7]
  {
    if a & 0x7F == b & 0x7F {
      SevenForward(a, b);
    }
    if Unpack(a)[..7] == Unpack(b)[..7] {
      SevenBack(a, b);
    }
  }

  lemma {:induction false} SevenForward(a: bv8, b: bv8)
    requires a & 0x7F == b & 0x7F
    ensures Unpack(a)[..7] == Unpack(b)[..7]
  {
    forall k | 0 <= k < 7
      ensures Unpack(a)[k] == Unpack(b)[k]
    {
      hide *;
      BitOfByte(a, k);
      BitOfByte(b, k);
      SevenBit(a, b, k);
    }
  }

  lemma {:induction false} SevenBack(a: bv8, b: bv8)
    requires Unpack(a)[..7] == Unpack(b)[..7]
    ensures a & 0x7F == b & 0x7F
  {
    hide *;
    forall k | 0 <= k < 7
      ensures (a & Mask(k) != 0) == (b & Mask(k) != 0)
    {
      assert Unpack(a)[..7][k] == Unpack(b)[..7][k];
      BitOfByte(a, k);
      BitOfByte(b, k);
    }
    SevenBits(a, b);
  }

  lemma SevenBit(a: bv8, b: bv8, k: nat)
    requires a & 0x7F == b & 0x7F && k < 7
    ensures (a & Mask(k) != 0) == (b & Mask(k) != 0)
  {
    MaskValues();
  }

  lemma SevenBits(a: bv8, b: bv8)
    requires forall k :: 0 <= k < 7 ==> (a & Mask(k) != 0) == (b & Mask(k) != 0)
    ensures a & 0x7F == b & 0x7F
  {
    MaskValues();
    assert (a & Mask(0) != 0) == (b & Mask(0) != 0) && (a & Mask(1) != 0) == (b & Mask(1) != 0);
    assert (a & Mask(2) != 0) == (b & Mask(2) != 0) && (a & Mask(3) != 0) == (b & Mask(3) != 0);
    assert (a & Mask(4) != 0) == (b & Mask(4) != 0) && (a & Mask(5) != 0) == (b & Mask(5) != 0);
    assert (a & Mask(6) != 0) == (b & Mask(6) != 0);
  }

  /** The state of the collection after the devices list[k0..k] have been seen. */
  ghost predicate Collecting(pop: set<Rom>, list: seq<Rom>, fam: seq<bool>, st: SearchState,
                             k0: nat, k: nat, got: seq<Rom>)
    requires |fam| == 8
  {
    && k0 < k <= |list| && At(pop, st, list[k - 1])
    && Filter(list[k0..], fam[..7]) == Collected(pop, list, fam)
    && got == Filter(list[k0..k], fam[..7])
  }

  lemma EmptyListing(pop: set<Rom>, list: seq<Rom>)
    requires Listing(pop, list)
    ensures |list| > 0 ==> pop != {}
  {
    if |list| > 0 {
      assert list[0] in list;
    }
  }

  lemma NothingCollected(fam: seq<bool>)
    requires |fam| == 8
    ensures Collected({}, [], fam) == []
  {}

  /** If the landing place does not match, nothing on the bus does. */
  lemma LandsOnMatch(pop: set<Rom>, list: seq<Rom>, fam: seq<bool>, r: Rom)
    requires Listing(pop, list) && |fam| == 8
    requires Matching(pop, fam) != {} ==> FirstWith(pop, fam, r)
    requires Matching(pop, fam) == {} && Matching(pop, fam[..7]) != {} ==> FirstWith(pop, fam[..7], r)
    requires r[..7] != fam[..7]
    ensures Collected(pop, list, fam) == []
  {
    assert r[..8][..7] == r[..7];
    forall i | 0 <= i < |list|
      ensures list[i][..7] != fam[..7]
    {
      assert list[i] in list;
      assert list[i] !in Matching(pop, fam[..7]);
    }
    FilterNone(list, fam[..7]);
  }

  /** The first search of the collection. */
  lemma CollectFirst(pop: set<Rom>, list: seq<Rom>, fam: seq<bool>, st': SearchState, rt: bool) returns (k: nat)
    requires Population(pop) && Listing(pop, list) && |fam| == 8
    requires Steps(pop, FamilySetup(fam), st', rt)
    ensures rt <==> pop != {}
    ensures rt ==> k < |list| && st'.serial == list[k]
    ensures rt ==> Collecting(pop, list, fam, st', k, k + 1, if list[k][..7] == fam[..7] then [list[k]] else [])
    ensures rt && list[k][..7] != fam[..7] ==> Collected(pop, list, fam) == []
    ensures !rt ==> Collected(pop, list, fam) == []
  {
    hide Filter, Collected, Population, At, FirstWith, Matching;
    k := 0;
    if pop == {} {
      EmptyListing(pop, list);
      NothingCollected(fam);
    } else {
      FamilyLanding(pop, fam, st', rt);
      assert st'.serial in list;
      k :| 0 <= k < |list| && list[k] == st'.serial;
      FirstCollected(pop, list, fam, st', k);
    }
  }

  lemma FirstCollected(pop: set<Rom>, list: seq<Rom>, fam: seq<bool>, st': SearchState, k: nat)
    requires Listing(pop, list) && |fam| == 8 && k < |list| && At(pop, st', list[k])
    requires Matching(pop, fam) != {} ==> FirstWith(pop, fam, list[k])
    requires Matching(pop, fam) == {} && Matching(pop, fam[..7]) != {} ==> FirstWith(pop, fam[..7], list[k])
    ensures Collecting(pop, list, fam, st', k, k + 1, if list[k][..7] == fam[..7] then [list[k]] else [])
    ensures list[k][..7] != fam[..7] ==> Collected(pop, list, fam) == []
  {
    hide Filter, Collected, Population, At, FirstWith, Matching;
    FromLanding(pop, list, fam, k);
    if list[k][..7] != fam[..7] {
      LandsOnMatch(pop, list, fam, list[k]);
    }
    assert list[k..k] == [];
    FilterNone(list[k..k], fam[..7]);
    FilterStep(list, k, k, fam[..7]);
  }

  /** Every later search of the collection. */
  lemma CollectNext(pop: set<Rom>, list: seq<Rom>, fam: seq<bool>, st: SearchState, st': SearchState, rt: bool,
                    k0: nat, k: nat, got: seq<Rom>)
    requires Population(pop) && Listing(pop, list) && |fam| == 8
    requires Collecting(pop, list, fam, st, k0, k, got) && Steps(pop, st, st', rt)
    ensures rt <==> k < |list|
    ensures rt ==> st'.serial == list[k]
    ensures rt ==> Collecting(pop, list, fam, st', k0, k + 1, if list[k][..7] == fam[..7] then got + [list[k]] else got)
    ensures !rt ==> got == Collected(pop, list, fam)
  {
    hide Filter, Collected, Population, Listing, At, Steps;
    StepInListing(pop, list, k - 1, st, st', rt);
    if rt {
      FilterStep(list, k0, k, fam[..7]);
    } else {
      assert list[k0..k] == list[k0..];
    }
  }

  /** What has been collected is always a beginning of what there is to collect. */
  lemma CollectedSoFar(pop: set<Rom>, list: seq<Rom>, fam: seq<bool>, st: SearchState, k0: nat, k: nat, got: seq<Rom>)
    requires |fam| == 8 && Collecting(pop, list, fam, st, k0, k, got)
    ensures |got| <= |Collected(pop, list, fam)| && got == Collected(pop, list, fam)[..|got|]
  {
    hide Filter, Collected;
    assert list[k0..] == list[k0..k] + list[k..];
    FilterAppend(list[k0..k], list[k..], fam[..7]);
  }

  lemma IdsGrow(bytes: seq<seq<bv8>>, id: seq<bv8>)
    requires |id| == 8 && forall i :: 0 <= i < |bytes| ==> |bytes[i]| == 8
    ensures Ids(bytes + [id]) == Ids(bytes) + [Stream(id)]
  {
    hide Stream;
    var all := bytes + [id];
    forall i | 0 <= i < |all|
      ensures Ids(all)[i] == (Ids(bytes) + [Stream(id)])[i]
    {
      if i < |bytes| { assert all[i] == bytes[i]; }
    }
  }

  lemma FamilyMatches(id: seq<bv8>, code: bv8)
    requires |id| == 8
    ensures (id[0] & 0x7F == code & 0x7F) <==> Stream(id)[..7] == Unpack(code)[..7]
  {
    hide Unpack;
    LowSeven(id[0], code);
    assert Stream(id)[..8] == Unpack(id[0]);
    assert Stream(id)[..7] == Stream(id)[..8][..7];
  }

  /** Where the collection stands: nothing searched yet, or list[k0..k] seen. */
  ghost predicate Progress(pop: set<Rom>, list: seq<Rom>, fam: seq<bool>, st: SearchState,
                           k0: nat, k: nat, got: seq<Rom>)
    requires |fam| == 8
  {
    if k == 0 then st == FamilySetup(fam) && got == [] else Collecting(pop, list, fam, st, k0, k, got)
  }

  /** One search of the collection, whether the first or a later one. */
  lemma CollectStep(pop: set<Rom>, list: seq<Rom>, fam: seq<bool>, st: SearchState, st': SearchState, rt: bool,
                    k0: nat, k: nat, got: seq<Rom>) returns (k0': nat, k': nat, got': seq<Rom>)
    requires Population(pop) && Listing(pop, list) && |fam| == 8
    requires Progress(pop, list, fam, st, k0, k, got) && Steps(pop, st, st', rt)
    ensures got' == if rt && st'.serial[..7] == fam[..7] then got + [st'.serial] else got
    ensures rt ==> k < k' <= |list| && Progress(pop, list, fam, st', k0', k', got')
    ensures rt ==> |got'| <= |Collected(pop, list, fam)| && got' == Collected(pop, list, fam)[..|got'|]
    ensures rt && k == 0 && got' == [] ==> Collected(pop, list, fam) == []
    ensures !rt ==> got == Collected(pop, list, fam)
  {
    hide Filter, Collected, Population, Listing, Steps, Collecting;
    k0', k', got' := k0, k + 1, if rt && st'.serial[..7] == fam[..7] then got + [st'.serial] else got;
    if k == 0 {
      k0' := CollectFirst(pop, list, fam, st', rt);
      k' := k0' + 1;
      assert rt ==> [] + [st'.serial] == [list[k0']];
    } else {
      CollectNext(pop, list, fam, st, st', rt, k0, k, got);
    }
    if rt {
      assert Collecting(pop, list, fam, st', k0', k', got');
      CollectedSoFar(pop, list, fam, st', k0', k', got');
      CollectingBounds(pop, list, fam, st', k0', k', got');
    }
  }

  lemma CollectingBounds(pop: set<Rom>, list: seq<Rom>, fam: seq<bool>, st: SearchState, k0: nat, k: nat, got: seq<Rom>)
    requires |fam| == 8 && Collecting(pop, list, fam, st, k0, k, got)
    ensures 0 < k <= |list|
  {}

  /** The entry just written stays in the result if its family byte matches. */
  method Keep(familySN: array<seq<bv8>>, numDevices: nat, id: seq<bv8>, familyCode: bv8) returns (n: nat)
    requires numDevices < familySN.Length && |id| == 8
    requires forall i :: 0 <= i < numDevices ==> |familySN[i]| == 8
    modifies familySN
    ensures n == if Stream(id)[..7] == Unpack(familyCode)[..7] then numDevices + 1 else numDevices
    ensures forall i :: 0 <= i < n ==> |familySN[i]| == 8
    ensures Ids(familySN[..n]) == old(Ids(familySN[..numDevices])) + if n > numDevices then [Stream(id)] else []
  {
    hide Stream, Unpack, Ids;
    ghost var before := familySN[..numDevices];
    familySN[numDevices] := id;
    n := numDevices;
    FamilyMatches(id, familyCode);
    IdsGrow(before, id);
    assert familySN[..numDevices] == before && familySN[..numDevices + 1] == before + [id];
    if familySN[n][0] & 0x7F == familyCode & 0x7F {
      n := n + 1;
    }
  }

  /** FindDevices fills the caller's array with the devices a search for the family is bound
      to collect, in walk order, up to the limit, and returns their number. */
  method FindDevices(port: Port, familySN: array<seq<bv8>>, familyCode: bv8, maxDevices: int,
                     present: bool, adapter: Adapter, ghost pop: set<Rom>, ghost list: seq<Rom>)
    returns (numDevices: nat)
    requires port.Valid() && FaultFree(pop, adapter) && (present <==> pop != {})
    requires Population(pop) && Listing(pop, list)
    requires familySN.Length >= 1 && familySN.Length >= maxDevices - 1 && familySN as object != port.serialNum as object
    modifies port, port.serialNum, port.crc, familySN
    ensures port.Valid()
    ensures var all := Collected(pop, list, Unpack(familyCode));
            && numDevices <= |all|
            && (maxDevices >= 2 ==> numDevices == if |all| < maxDevices - 1 then |all| else maxDevices - 1)
            && (maxDevices < 2 ==> numDevices == if |all| == 0 then 0 else 1)
            && (forall i :: 0 <= i < numDevices ==> |familySN[i]| == 8)
            && Ids(familySN[..numDevices]) == all[..numDevices]
  {
    hide Stream, Unpack, Filter, Population, Listing, Steps, Next, Collected, Collecting, StartRom, Ids;
    ghost var fam := Unpack(familyCode);
    port.OwFamilySearchSetup(familyCode);
    numDevices := 0;
    ghost var got: seq<Rom>, k0: nat, k: nat := [], 0, 0;
    NoIds(familySN[..0]);
    while true
      invariant port.Valid() && k <= |list| && (k == 0 ==> numDevices == 0)
      invariant k > 0 ==> numDevices < maxDevices - 1
      invariant Progress(pop, list, fam, port.State(), k0, k, got)
      invariant forall i :: 0 <= i < numDevices ==> |familySN[i]| == 8
      invariant |got| == numDevices && Ids(familySN[..numDevices]) == got
      decreases |list| - k
    {
      ghost var st := port.State();
      var rt, sent := port.OwNext(false, true, present, adapter);
      CallSteps(pop, adapter, 0xF0, st, sent, port.State(), rt);
      ghost var k0', k', got' := CollectStep(pop, list, fam, st, port.State(), rt, k0, k, got);
      if !rt {
        break;
      }
      var id := port.ReadSerialNum();
      numDevices := Keep(familySN, numDevices, id, familyCode);
      k0, k, got := k0', k', got';
      if !(numDevices < maxDevices - 1) {
        break;
      }
    }
  }

  lemma NoIds(bytes: seq<seq<bv8>>)
    requires bytes == []
    ensures Ids(bytes) == []
  {}

  /** For a family code below 0x80 what FindDevices collects is exactly the devices whose low
      seven family bits match, each once, in walk order. */
  lemma Below80(pop: set<Rom>, list: seq<Rom>, familyCode: bv8)
    requires Listing(pop, list) && familyCode < 0x80
    ensures Listing(Matching(pop, Unpack(familyCode)[..7]), Collected(pop, list, Unpack(familyCode)))
  {
    hide Unpack, Filter;
    MaskValues();
    BitOfByte(familyCode, 7);
    assert familyCode & 0x80 == 0;
    FilterKeeps(pop, list, Unpack(familyCode)[..7]);
  }
}
