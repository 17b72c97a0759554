/** The 64-bit ROM ids of the devices on a bus as leaves of a binary tree, and the walk
    the DS2490 makes down that tree for one SEARCH_ACCESS command. */
module RomTree {
  import opened Bits
  import opened Lfsr

  const BITS: nat := 64

  /** A ROM id, least significant bit of the family code first. */
  type Rom = r: seq<bool> | |r| == BITS witness seq(BITS, _ => false)

  /** No two of the ids differ only in their CRC byte. */
  ghost predicate Determined(pop: set<Rom>) {
    forall a, b :: a in pop && b in pop && a[..56] == b[..56] ==> a == b
  }

  /** The CRC8 over all eight bytes is zero. */
  predicate CrcValid(r: Rom) {
    OverBits(Crc8, 0, r) == 0
  }

  /** The family code, the first byte, is not zero. */
  predicate HasFamily(r: Rom) {
    r[..8] != Zeros(8)
  }

  /** What can be connected to a bus: ids with a good CRC and a family code. */
  ghost predicate Population(pop: set<Rom>) {
    forall r :: r in pop ==> CrcValid(r) && HasFamily(r)
  }

  /** The CRC byte is determined by the seven bytes before it. */
  lemma CrcDetermines(a: Rom, b: Rom)
    requires CrcValid(a) && CrcValid(b) && a[..56] == b[..56]
    ensures a == b
  {
    if a != b {
      forall k | 0 <= k < BITS && !(56 <= k < 56 + 8)
        ensures a[k] == b[k]
      {
        assert a[..56][k] == b[..56][k];
      }
      BitBurst(Crc8, 0, a, b, 56);
    }
  }

  lemma PopulationDetermined(pop: set<Rom>)
    requires Population(pop)
    ensures Determined(pop)
  {
    forall a, b | a in pop && b in pop && a[..56] == b[..56]
      ensures a == b
    {
      CrcDetermines(a, b);
    }
  }

  /** The order of the walk: the id with a 0 at the first difference comes first. */
  predicate Before(a: Rom, b: Rom) {
    var i := FirstDiff(a, b);
    i < BITS && b[i]
  }

  lemma FirstDiffIs(a: seq<bool>, b: seq<bool>, i: nat)
    requires |a| == |b| && i < |a|
    requires a[..i] == b[..i] && a[i] != b[i]
    ensures FirstDiff(a, b) == i
  {
    SamePrefix(a, b, i, i);
    SamePrefix(a, b, FirstDiff(a, b), i);
  }

  lemma BeforeTotal(a: Rom, b: Rom)
    ensures a == b || Before(a, b) || Before(b, a)
    ensures !(Before(a, b) && Before(b, a))
    ensures !Before(a, a)
  {
    var i := FirstDiff(a, b);
    if i < BITS {
      FirstDiffIs(b, a, i);
    }
    assert a[..FirstDiff(a, a)] == a[..FirstDiff(a, a)];
  }

  lemma BeforeTransitive(a: Rom, b: Rom, c: Rom)
    requires Before(a, b) && Before(b, c)
    ensures Before(a, c)
  {
    var i, j := FirstDiff(a, b), FirstDiff(b, c);
    var m := if i < j then i else j;
    assert a[..m] == a[..i][..m] == b[..i][..m] == b[..m];
    assert c[..m] == c[..j][..m] == b[..j][..m] == b[..m];
    if i < j {
      assert b[..j][i] == c[..j][i];
    } else if j < i {
      assert a[..i][j] == b[..i][j];
    }
    FirstDiffIs(a, c, m);
  }

  /** The walk order is a strict total order, so a listing of a population in it is unique. */
  lemma WalkOrder(a: Rom, b: Rom, c: Rom)
    ensures !Before(a, a) && (Before(a, b) ==> !Before(b, a))
    ensures a != b ==> Before(a, b) || Before(b, a)
    ensures Before(a, b) && Before(b, c) ==> Before(a, c)
  {
    BeforeTotal(a, b);
    if Before(a, b) && Before(b, c) {
      BeforeTransitive(a, b, c);
    }
  }

  // ----- the walk -----

  /** The devices still answering take both values at bit j of the path r. */
  ghost predicate Split(pop: set<Rom>, r: Rom, j: nat)
    requires j < BITS
  {
    exists q :: q in pop && q[..j] == r[..j] && q[j] != r[j]
  }

  /** What a walk from `start` over a population finds: a member that goes the way of
      `start` wherever the population splits along it. */
  ghost predicate Walks(pop: set<Rom>, start: Rom, r: Rom) {
    r in pop && forall j :: 0 <= j < BITS && Split(pop, r, j) ==> r[j] == start[j]
  }

  /** The reply of the adapter: the id found and the bit positions where it had a choice. */
  datatype Found = Found(rom: seq<bool>, marks: seq<bool>)

  /** SEARCH_ACCESS, bit by bit. `c` are the devices that match `path` so far. Where both
      values are present the bit of `start` is taken and the position is marked; otherwise
      the only value present is taken. */
  function Descend(c: set<Rom>, start: Rom, path: seq<bool>, marks: seq<bool>): (f: Found)
    requires |path| == |marks| <= BITS
    ensures |f.rom| == |f.marks| == BITS
    decreases BITS - |path|
  {
    var i := |path|;
    if i == BITS then Found(path, marks)
    else
      var zeros := set r | r in c && !r[i];
      var ones := set r | r in c && r[i];
      var both := zeros != {} && ones != {};
      var bit := if both then start[i] else ones != {};
      Descend(if bit then ones else zeros, start, path + [bit], marks + [both])
  }

  lemma {:induction false} DescendKeeps(c: set<Rom>, start: Rom, path: seq<bool>, marks: seq<bool>)
    requires |path| == |marks| <= BITS
    ensures var f := Descend(c, start, path, marks); f.rom[..|path|] == path && f.marks[..|path|] == marks
    decreases BITS - |path|
  {
    var i := |path|;
    if i < BITS {
      var zeros := set r | r in c && !r[i];
      var ones := set r | r in c && r[i];
      var both := zeros != {} && ones != {};
      var bit := if both then start[i] else ones != {};
      var p, m := path + [bit], marks + [both];
      DescendKeeps(if bit then ones else zeros, start, p, m);
      var f := Descend(c, start, path, marks);
      assert f.rom[..i] == f.rom[..i + 1][..i] == p[..i] == path;
      assert f.marks[..i] == f.marks[..i + 1][..i] == m[..i] == marks;
    }
  }

  /** The devices of a population that match a path. */
  ghost function Matching(pop: set<Rom>, path: seq<bool>): set<Rom>
    requires |path| <= BITS
  {
    set r | r in pop && r[..|path|] == path
  }

  lemma MatchingStep(pop: set<Rom>, path: seq<bool>, bit: bool)
    requires |path| < BITS
    ensures Matching(pop, path + [bit]) == set r | r in Matching(pop, path) && r[|path|] == bit
  {
    var i := |path|;
    forall r | r in pop
      ensures r[..i + 1] == path + [bit] <==> r[..i] == path && r[i] == bit
    {
      assert r[..i + 1] == r[..i] + [r[i]];
      if r[..i + 1] == path + [bit] {
        assert r[..i] == r[..i + 1][..i] == path;
        assert r[i] == r[..i + 1][i] == bit;
      }
    }
  }

  /** The bit-by-bit walk finds a member, goes by `start` exactly at the splits, and marks
      exactly the splits. */
  lemma {:induction false} DescendWalks(pop: set<Rom>, start: Rom, path: seq<bool>, marks: seq<bool>)
    requires |path| == |marks| <= BITS
    requires Matching(pop, path) != {}
    requires forall j :: 0 <= j < |path| ==> marks[j] == exists q :: q in pop && q[..j] == path[..j] && q[j] != path[j]
    requires forall j :: 0 <= j < |path| && marks[j] ==> path[j] == start[j]
    ensures var f := Descend(Matching(pop, path), start, path, marks);
            && Walks(pop, start, f.rom)
            && forall j :: 0 <= j < BITS ==> f.marks[j] == Split(pop, f.rom, j)
    decreases BITS - |path|
  {
    var i := |path|;
    var c := Matching(pop, path);
    if i == BITS {
      var r :| r in c;
      assert r[..BITS] == r == path;
      var f := Descend(c, start, path, marks);
      assert f == Found(path, marks);
    } else {
      var zeros := set r | r in c && !r[i];
      var ones := set r | r in c && r[i];
      var both := zeros != {} && ones != {};
      var bit := if both then start[i] else ones != {};
      MatchingStep(pop, path, false);
      MatchingStep(pop, path, true);
      assert Matching(pop, path + [false]) == zeros && Matching(pop, path + [true]) == ones;
      assert c == zeros + ones;
      var p, m := path + [bit], marks + [both];
      assert Matching(pop, p) != {};
      StepSplits(pop, path, bit, zeros, ones);
      assert p[..i] == path;
      forall j | 0 <= j < i
        ensures p[..j] == path[..j]
      {}
      DescendWalks(pop, start, p, m);
    }
  }

  lemma StepSplits(pop: set<Rom>, path: seq<bool>, bit: bool, zeros: set<Rom>, ones: set<Rom>)
    requires |path| < BITS
    requires zeros == set r | r in Matching(pop, path) && !r[|path|]
    requires ones == set r | r in Matching(pop, path) && r[|path|]
    requires if bit then ones != {} else zeros != {}
    ensures (zeros != {} && ones != {}) == exists q :: q in pop && q[..|path|] == path && q[|path|] != bit
  {
    var other := if bit then zeros else ones;
    if other != {} {
      var q :| q in other;
      assert q in pop && q[..|path|] == path && q[|path|] != bit;
    }
    if exists q :: q in pop && q[..|path|] == path && q[|path|] != bit {
      var q :| q in pop && q[..|path|] == path && q[|path|] != bit;
      assert q in other;
    }
  }

  /** What the adapter finds from `start`. */
  function Search(pop: set<Rom>, start: Rom): (f: Found)
    ensures |f.rom| == |f.marks| == BITS
  {
    Descend(pop, start, [], [])
  }

  lemma SearchWalks(pop: set<Rom>, start: Rom)
    requires pop != {}
    ensures Walks(pop, start, Search(pop, start).rom)
    ensures forall j :: 0 <= j < BITS ==> Search(pop, start).marks[j] == Split(pop, Search(pop, start).rom, j)
  {
    forall r | r in pop
      ensures r[..0] == []
    {
    }
    assert Matching(pop, []) == pop;
    DescendWalks(pop, start, [], []);
  }

  // ----- where a walk lands -----

  /** r is the first member of the population, in walk order, that starts with `prefix`. */
  ghost predicate FirstWith(pop: set<Rom>, prefix: seq<bool>, r: Rom)
    requires |prefix| <= BITS
  {
    r in Matching(pop, prefix) && forall p :: p in Matching(pop, prefix) ==> p == r || Before(r, p)
  }

  /** If some member starts the way `start` does, so does the one the walk finds. */
  lemma LandsInPrefix(pop: set<Rom>, start: Rom, j: nat, r: Rom)
    requires j <= BITS && Matching(pop, start[..j]) != {}
    requires Walks(pop, start, r)
    ensures r[..j] == start[..j]
  {
    var q :| q in Matching(pop, start[..j]);
    if r[..j] != start[..j] {
      var i := FirstDiff(r[..j], start[..j]);
      assert q[..i] == q[..j][..i] == start[..j][..i] == r[..j][..i] == r[..i];
      assert q[i] == q[..j][i] == start[..j][i] == start[i] && r[i] == r[..j][i];
      assert Split(pop, r, i);
      assert false;
    }
  }

  /** From a prefix followed by zeros (up to the CRC byte, which never splits) the walk lands
      on the first member with that prefix, if there is one. */
  lemma Lands(pop: set<Rom>, start: Rom, j: nat, r: Rom)
    requires Determined(pop) && j <= 56
    requires forall k :: j <= k < 56 ==> !start[k]
    requires Matching(pop, start[..j]) != {}
    requires Walks(pop, start, r)
    ensures FirstWith(pop, start[..j], r)
  {
    LandsInPrefix(pop, start, j, r);
    forall p | p in Matching(pop, start[..j])
      ensures p == r || Before(r, p)
    {
      if p != r {
        Forks(pop, start, r, p);
        SamePrefix(r, p, j, j);
      }
    }
  }

  /** Where another member leaves the path of a walk, the walk went by `start`, before the CRC byte. */
  lemma Forks(pop: set<Rom>, start: Rom, r: Rom, p: Rom)
    requires Determined(pop) && Walks(pop, start, r) && p in pop && p != r
    ensures var i := FirstDiff(r, p); i < 56 && Split(pop, r, i) && r[i] == start[i]
  {
    var i := FirstDiff(r, p);
    assert Split(pop, r, i);
    SamePrefix(r, p, i, 56);
  }
}
