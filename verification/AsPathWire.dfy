// AS_PATH on the wire (qsrx/bgpd/bgp_aspath.c:688-782, 846-947): what aspath_put writes and what
// assegments_parse makes of it.
module AsPathWire {
  import opened Util
  import opened AsPath

  type Bytes = seq<u8>

  const AS_SEGMENT_MAX := 255
  const AS_TRANS: u32 := 23456
  const BGP_AS_MAX := 65535

  function Width(wide: bool): nat {
    if wide then 4 else 2
  }

  // The bytes n AS numbers take.
  function DataSize(n: nat, wide: bool): nat {
    if wide then 4 * n else 2 * n
  }

  function SegmentSize(n: nat, wide: bool): nat {
    2 + DataSize(n, wide)
  }

  function KindByte(kind: Kind): u8 {
    match kind
    case AsSet => 1
    case AsSequence => 2
    case AsConfedSequence => 3
    case AsConfedSet => 4
  }

  function KindOf(b: u8): Option<Kind> {
    match b
    case 1 => Some(AsSet)
    case 2 => Some(AsSequence)
    case 3 => Some(AsConfedSequence)
    case 4 => Some(AsConfedSet)
    case _ => None
  }

  // ---- AS numbers

  // What a 16-bit speaker is told.
  function Told(x: u32, wide: bool): u32 {
    if wide || x <= BGP_AS_MAX then x else AS_TRANS
  }

  function AsnBytes(x: u32, wide: bool): (b: Bytes)
    ensures |b| == Width(wide)
  {
    if wide then [x / 0x100_0000, x / 0x1_0000 % 0x100, x / 0x100 % 0x100, x % 0x100]
    else [Told(x, false) / 0x100, Told(x, false) % 0x100]
  }

  function Data(asns: seq<u32>, wide: bool): (b: Bytes)
    ensures |b| == DataSize(|asns|, wide)
  {
    if asns == [] then [] else AsnBytes(asns[0], wide) + Data(asns[1..], wide)
  }

  function Word(high: int, low: u8): int {
    high * 0x100 + low
  }

  function AsnAt(b: Bytes, wide: bool): u32
    requires |b| >= Width(wide)
  {
    if wide then Word(Word(Word(b[0], b[1]), b[2]), b[3]) else Word(b[0], b[1])
  }

  function Decoded(b: Bytes, n: nat, wide: bool): seq<u32>
    requires |b| >= DataSize(n, wide)
  {
    if n == 0 then [] else [AsnAt(b, wide)] + Decoded(b[Width(wide)..], n - 1, wide)
  }

  function ToldAll(asns: seq<u32>, wide: bool): seq<u32> {
    seq(|asns|, i requires 0 <= i < |asns| => Told(asns[i], wide))
  }

  lemma AsnDecoded(x: u32, rest: Bytes, wide: bool)
    ensures AsnAt(AsnBytes(x, wide) + rest, wide) == Told(x, wide)
  {
    WordsOf(x);
    var b := AsnBytes(x, wide) + rest;
    if wide {
      assert b[0] == x / 0x100_0000 && b[1] == x / 0x1_0000 % 0x100 && b[2] == x / 0x100 % 0x100 && b[3] == x % 0x100;
    } else {
      assert b[0] == Told(x, false) / 0x100 && b[1] == Told(x, false) % 0x100;
    }
  }

  lemma WordsOf(x: u32)
    ensures Word(Word(Word(x / 0x100_0000, x / 0x1_0000 % 0x100), x / 0x100 % 0x100), x % 0x100) == x
  {
    assert x / 0x1_0000 / 0x100 == x / 0x100_0000 && x / 0x100 / 0x100 == x / 0x1_0000;
  }

  lemma {:induction false} DataDecoded(asns: seq<u32>, rest: Bytes, wide: bool)
    ensures Decoded(Data(asns, wide) + rest, |asns|, wide) == ToldAll(asns, wide)
  {
    if asns == [] {
    } else {
      var more := Data(asns[1..], wide) + rest;
      Associative(AsnBytes(asns[0], wide), Data(asns[1..], wide), rest);
      DataDecoded(asns[1..], rest, wide);
      AsnDecoded(asns[0], more, wide);
      assert (AsnBytes(asns[0], wide) + more)[Width(wide)..] == more;
      assert ToldAll(asns, wide) == [Told(asns[0], wide)] + ToldAll(asns[1..], wide);
    }
  }

  lemma {:induction false} DataConcat(s: seq<u32>, t: seq<u32>, wide: bool)
    ensures Data(s + t, wide) == Data(s, wide) + Data(t, wide)
  {
    if s == [] {
      assert s + t == t;
    } else {
      assert (s + t)[1..] == s[1..] + t;
      DataConcat(s[1..], t, wide);
    }
  }

  // ---- writing

  // The parts an overlength segment is split into, but for the last. Each of them holds the first
  // numbers of the segment, as the code has it; the length added up is that of all written so far.
  function SplitBytes(kind: Kind, asns: seq<u32>, written: nat, wide: bool): Bytes
    requires written <= |asns|
    decreases |asns| - written
  {
    if |asns| - written <= AS_SEGMENT_MAX then []
    else [KindByte(kind), 255] + Data(asns[..AS_SEGMENT_MAX], wide)
         + SplitBytes(kind, asns, written + AS_SEGMENT_MAX, wide)
  }

  function SplitCount(n: nat, written: nat, wide: bool): nat
    requires written <= n
    decreases n - written
  {
    if n - written <= AS_SEGMENT_MAX then 0
    else SegmentSize(written + AS_SEGMENT_MAX, wide) + SplitCount(n, written + AS_SEGMENT_MAX, wide)
  }

  // How many numbers have gone into those parts.
  function SplitAt(n: nat, written: nat): (w: nat)
    requires written <= n
    ensures written <= w <= n && n - w <= AS_SEGMENT_MAX
    ensures n - written <= AS_SEGMENT_MAX ==> w == written
    decreases n - written
  {
    if n - written <= AS_SEGMENT_MAX then written else SplitAt(n, written + AS_SEGMENT_MAX)
  }

  // How many of the next segments are packed into this one.
  function Packed(seg: Segment, rest: Path): (n: nat)
    ensures n <= |rest|
    ensures n > 0 ==> |seg.asns| + |rest[n - 1].asns| <= AS_SEGMENT_MAX
  {
    if rest != [] && seg.kind.AsSequence? && rest[0].kind.AsSequence?
       && |seg.asns| + |rest[0].asns| <= AS_SEGMENT_MAX
    then 1 + Packed(seg, rest[1..])
    else 0
  }

  function AllAsns(p: Path): seq<u32> {
    if p == [] then [] else p[0].asns + AllAsns(p[1..])
  }

  // The header's length with n segments packed: only the last of them is counted.
  function LengthWith(seg: Segment, written: nat, rest: Path, n: nat): int
    requires n <= |rest|
  {
    if n == 0 then |seg.asns| - written else |seg.asns| - written + |rest[n - 1].asns|
  }

  // The length written into the header of the last part.
  function LastLength(seg: Segment, rest: Path): u8 {
    LengthWith(seg, SplitAt(|seg.asns|, 0), rest, Packed(seg, rest))
  }

  // What one turn of the loop writes.
  function SegmentBytes(seg: Segment, rest: Path, wide: bool): Bytes {
    var w := SplitAt(|seg.asns|, 0);
    SplitBytes(seg.kind, seg.asns, 0, wide)
    + ([KindByte(seg.kind), LastLength(seg, rest)] + Data(seg.asns[w..], wide))
    + Data(AllAsns(rest[..Packed(seg, rest)]), wide)
  }

  // What it adds to the returned length.
  function SegmentCount(seg: Segment, rest: Path, wide: bool): nat {
    var w := SplitAt(|seg.asns|, 0);
    SplitCount(|seg.asns|, 0, wide)
    + SegmentSize(|seg.asns| - w + |AllAsns(rest[..Packed(seg, rest)])|, wide)
  }

  // What is left of the list once the next segments are packed into this one.
  function AfterPacked(seg: Segment, rest: Path): (left: Path)
    ensures |left| <= |rest|
  {
    if rest != [] && seg.kind.AsSequence? && rest[0].kind.AsSequence?
       && |seg.asns| + |rest[0].asns| <= AS_SEGMENT_MAX
    then AfterPacked(seg, rest[1..])
    else rest
  }

  lemma {:induction false} AfterPackedIs(seg: Segment, rest: Path)
    ensures AfterPacked(seg, rest) == rest[Packed(seg, rest)..]
  {
    if Packed(seg, rest) == 0 {
    } else {
      AfterPackedIs(seg, rest[1..]);
    }
  }

  // What one turn of aspath_put writes and counts, and the size it checks the room for.
  datatype Chunk = Chunk(size: nat, bytes: Bytes, count: nat)

  function ChunkOf(seg: Segment, rest: Path, wide: bool): Chunk {
    Chunk(SegmentSize(|seg.asns|, wide), SegmentBytes(seg, rest, wide), SegmentCount(seg, rest, wide))
  }

  function Chunks(p: Path, wide: bool): seq<Chunk>
    decreases |p|
  {
    if p == [] then [] else [ChunkOf(p[0], p[1..], wide)] + Chunks(AfterPacked(p[0], p[1..]), wide)
  }

  function Joined(cs: seq<Chunk>): (Bytes, nat) {
    if cs == [] then ([], 0)
    else (cs[0].bytes + Joined(cs[1..]).0, cs[0].count + Joined(cs[1..]).1)
  }

  // All turns together.
  function PutSegments(p: Path, wide: bool): (Bytes, nat) {
    Joined(Chunks(p, wide))
  }

  // aspath_put, given room: the bytes and the returned length.
  function Put(p: Path, wide: bool): (Bytes, nat) {
    if p == [] || p[0].asns == [] then ([], 0) else PutSegments(p, wide)
  }

  // ---- reading

  function ParseSegments(b: Bytes, wide: bool): Option<Path>
    decreases |b|
  {
    if b == [] then Some([])
    else if |b| <= 2 then None
    else if SegmentSize(b[1], wide) > |b| || b[1] == 0 || KindOf(b[0]).None? then None
    else
      match ParseSegments(b[SegmentSize(b[1], wide)..], wide)
      case None => None
      case Some(rest) => Some([Segment(KindOf(b[0]).value, Decoded(b[2..], b[1], wide))] + rest)
  }

  // assegments_parse on an attribute of this content.
  function Parse(b: Bytes, wide: bool): Option<Path> {
    if |b| % 2 != 0 then None
    else match ParseSegments(b, wide)
      case None => None
      case Some(p) => Some(Normalise(p))
  }

  // ---- the round trip

  ghost predicate NonEmpty(p: Path) {
    forall i :: 0 <= i < |p| ==> p[i].asns != []
  }

  ghost predicate AtMost(p: Path, n: nat) {
    forall i :: 0 <= i < |p| ==> |p[i].asns| <= n
  }

  // Only sequences may be split: their parts are put together again by the parser.
  ghost predicate Splittable(p: Path) {
    forall i :: 0 <= i < |p| && !p[i].kind.AsSequence? ==> |p[i].asns| <= AS_SEGMENT_MAX
  }

  // What the receiver is told of a path.
  function ToldPath(p: Path, wide: bool): Path {
    seq(|p|, i requires 0 <= i < |p| => Segment(p[i].kind, ToldAll(p[i].asns, wide)))
  }

  // The parts a segment of at most 510 numbers arrives in.
  function Parts(seg: Segment): Path {
    if |seg.asns| <= AS_SEGMENT_MAX then [seg]
    else [Segment(seg.kind, seg.asns[..AS_SEGMENT_MAX]), Segment(seg.kind, seg.asns[AS_SEGMENT_MAX..])]
  }

  function AllParts(p: Path): Path {
    if p == [] then [] else Parts(p[0]) + AllParts(p[1..])
  }

  lemma NothingPacked(p: Path)
    requires Normal(p) && p != []
    ensures Packed(p[0], p[1..]) == 0 && AfterPacked(p[0], p[1..]) == p[1..] && Normal(p[1..])
  {
    if |p| > 1 {
      assert p[1..][0] == p[1];
    }
  }

  function Part(kind: Kind, asns: seq<u32>, wide: bool): Bytes
    requires |asns| <= AS_SEGMENT_MAX
  {
    [KindByte(kind), |asns|] + Data(asns, wide)
  }

  lemma PartSplit(kind: Kind, asns: seq<u32>, rest: Bytes, wide: bool)
    requires 0 < |asns| <= AS_SEGMENT_MAX
    ensures var b := Part(kind, asns, wide) + rest;
            && |b| > 2 && KindOf(b[0]) == Some(kind) && b[1] == |asns| && SegmentSize(|asns|, wide) <= |b|
            && b[2..] == Data(asns, wide) + rest && b[SegmentSize(|asns|, wide)..] == rest
  {
    HeaderSplit(KindByte(kind), |asns|, Data(asns, wide), rest);
  }

  // A header of two bytes, data of some length, and the rest.
  lemma HeaderSplit(kind: u8, length: u8, data: Bytes, rest: Bytes)
    ensures var b := [kind, length] + data + rest;
            |b| == 2 + |data| + |rest| && b[0] == kind && b[1] == length
            && b[2..] == data + rest && b[2 + |data|..] == rest
  {
    var head := [kind, length];
    Associative(head, data, rest);
    Suffix(head, data + rest);
    Suffix(head + data, rest);
  }

  lemma Suffix(front: Bytes, back: Bytes)
    ensures (front + back)[|front|..] == back
  {
  }

  // One part is parsed to the numbers told in it.
  lemma PartParsed(kind: Kind, asns: seq<u32>, rest: Bytes, wide: bool)
    requires 0 < |asns| <= AS_SEGMENT_MAX && ParseSegments(rest, wide).Some?
    ensures ParseSegments(Part(kind, asns, wide) + rest, wide)
         == Some([Segment(kind, ToldAll(asns, wide))] + ParseSegments(rest, wide).value)
  {
    PartSplit(kind, asns, rest, wide);
    DataDecoded(asns, rest, wide);
  }

  // The bytes of a segment of at most 510 numbers are its parts.
  lemma SegmentBytesAre(seg: Segment, rest: Path, wide: bool)
    requires |seg.asns| <= 2 * AS_SEGMENT_MAX && Packed(seg, rest) == 0
    ensures SegmentBytes(seg, rest, wide)
         == if |seg.asns| <= AS_SEGMENT_MAX then Part(seg.kind, seg.asns, wide)
            else Part(seg.kind, seg.asns[..AS_SEGMENT_MAX], wide) + Part(seg.kind, seg.asns[AS_SEGMENT_MAX..], wide)
  {
    assert rest[..0] == [] && AllAsns([]) == [];
    if |seg.asns| <= AS_SEGMENT_MAX {
      assert seg.asns[0..] == seg.asns;
    } else {
      assert SplitBytes(seg.kind, seg.asns, AS_SEGMENT_MAX, wide) == [];
    }
  }

  lemma SegmentParsed(seg: Segment, rest: Path, more: Bytes, wide: bool)
    requires 0 < |seg.asns| <= 2 * AS_SEGMENT_MAX && Packed(seg, rest) == 0 && ParseSegments(more, wide).Some?
    ensures ParseSegments(SegmentBytes(seg, rest, wide) + more, wide)
         == Some(Parts(Segment(seg.kind, ToldAll(seg.asns, wide))) + ParseSegments(more, wide).value)
  {
    SegmentBytesAre(seg, rest, wide);
    if |seg.asns| <= AS_SEGMENT_MAX {
      PartParsed(seg.kind, seg.asns, more, wide);
    } else {
      TwoPartsParsed(seg.kind, seg.asns[..AS_SEGMENT_MAX], seg.asns[AS_SEGMENT_MAX..], more, wide);
      ToldTwice(seg, wide);
    }
  }

  lemma TwoPartsParsed(kind: Kind, s: seq<u32>, t: seq<u32>, more: Bytes, wide: bool)
    requires 0 < |s| <= AS_SEGMENT_MAX && 0 < |t| <= AS_SEGMENT_MAX && ParseSegments(more, wide).Some?
    ensures ParseSegments(Part(kind, s, wide) + Part(kind, t, wide) + more, wide)
         == Some([Segment(kind, ToldAll(s, wide)), Segment(kind, ToldAll(t, wide))] + ParseSegments(more, wide).value)
  {
    PartParsed(kind, t, more, wide);
    PartParsed(kind, s, Part(kind, t, wide) + more, wide);
    Associative(Part(kind, s, wide), Part(kind, t, wide), more);
    var first, second := Segment(kind, ToldAll(s, wide)), Segment(kind, ToldAll(t, wide));
    assert [first] + [second] == [first, second];
    Associative([first], [second], ParseSegments(more, wide).value);
  }

  lemma ToldTwice(seg: Segment, wide: bool)
    requires AS_SEGMENT_MAX < |seg.asns|
    ensures Parts(Segment(seg.kind, ToldAll(seg.asns, wide)))
         == [Segment(seg.kind, ToldAll(seg.asns[..AS_SEGMENT_MAX], wide)),
             Segment(seg.kind, ToldAll(seg.asns[AS_SEGMENT_MAX..], wide))]
  {
    var told := ToldAll(seg.asns, wide);
    assert |told| == |seg.asns|;
    assert ToldAll(seg.asns[..AS_SEGMENT_MAX], wide) == told[..AS_SEGMENT_MAX];
    assert ToldAll(seg.asns[AS_SEGMENT_MAX..], wide) == told[AS_SEGMENT_MAX..];
  }

  lemma FirstChunk(p: Path, wide: bool, cs: seq<Chunk>, rest: seq<Chunk>)
    requires p != [] && cs == Chunks(p, wide) && rest == Chunks(AfterPacked(p[0], p[1..]), wide)
    ensures cs == [ChunkOf(p[0], p[1..], wide)] + rest
  {
  }

  lemma JoinedFirst(c: Chunk, cs: seq<Chunk>)
    ensures Joined([c] + cs) == (c.bytes + Joined(cs).0, c.count + Joined(cs).1)
  {
    assert ([c] + cs)[1..] == cs;
  }

  lemma FirstJoined(p: Path, wide: bool, cs: seq<Chunk>, rest: seq<Chunk>)
    requires p != [] && cs == Chunks(p, wide) && rest == Chunks(AfterPacked(p[0], p[1..]), wide)
    ensures Joined(cs) == (SegmentBytes(p[0], p[1..], wide) + Joined(rest).0,
                           SegmentCount(p[0], p[1..], wide) + Joined(rest).1)
  {
    FirstChunk(p, wide, cs, rest);
    JoinedFirst(ChunkOf(p[0], p[1..], wide), rest);
  }

  // The first turn of aspath_put, as PutSegments has it.
  lemma FirstPut(p: Path, left: Path, wide: bool)
    requires p != [] && left == AfterPacked(p[0], p[1..])
    ensures PutSegments(p, wide) == (SegmentBytes(p[0], p[1..], wide) + PutSegments(left, wide).0,
                                     SegmentCount(p[0], p[1..], wide) + PutSegments(left, wide).1)
  {
    FirstJoined(p, wide, Chunks(p, wide), Chunks(left, wide));
  }

  // A normal path with numbers in every segment, and no more than two parts of each.
  ghost predicate Sendable(p: Path) {
    Normal(p) && NonEmpty(p) && AtMost(p, 2 * AS_SEGMENT_MAX)
  }

  lemma SendableTail(p: Path)
    requires Sendable(p) && p != []
    ensures Sendable(p[1..])
  {
    NothingPacked(p);
  }

  lemma FirstParsed(p: Path, rest: Path, wide: bool)
    requires Sendable(p) && p != [] && ParseSegments(PutSegments(p[1..], wide).0, wide) == Some(rest)
    ensures ParseSegments(PutSegments(p, wide).0, wide)
         == Some(Parts(Segment(p[0].kind, ToldAll(p[0].asns, wide))) + rest)
  {
    NothingPacked(p);
    FirstPut(p, p[1..], wide);
    SegmentParsed(p[0], p[1..], PutSegments(p[1..], wide).0, wide);
  }

  lemma {:induction false} PutParsed(p: Path, wide: bool)
    requires Sendable(p)
    ensures ParseSegments(PutSegments(p, wide).0, wide) == Some(AllParts(ToldPath(p, wide)))
  {
    if p == [] {
    } else {
      SendableTail(p);
      PutParsed(p[1..], wide);
      FirstParsed(p, AllParts(ToldPath(p[1..], wide)), wide);
      ToldParts(p, wide);
    }
  }

  lemma ToldParts(p: Path, wide: bool)
    requires p != []
    ensures AllParts(ToldPath(p, wide))
         == Parts(Segment(p[0].kind, ToldAll(p[0].asns, wide))) + AllParts(ToldPath(p[1..], wide))
  {
    assert ToldPath(p, wide)[1..] == ToldPath(p[1..], wide);
  }

  // Normalising puts split sequences together again.
  lemma {:induction false} PartsMerge(p: Path)
    requires Splittable(p)
    ensures Normalise(AllParts(p)) == Normalise(p)
  {
    if p == [] {
    } else {
      PartsMerge(p[1..]);
      var seg, rest := p[0], AllParts(p[1..]);
      if |seg.asns| > AS_SEGMENT_MAX {
        MergeFirst(seg.asns[..AS_SEGMENT_MAX], seg.asns[AS_SEGMENT_MAX..], rest);
        assert seg.asns[..AS_SEGMENT_MAX] + seg.asns[AS_SEGMENT_MAX..] == seg.asns;
        assert ([seg] + rest)[1..] == rest;
      } else {
        assert ([seg] + rest)[1..] == rest;
      }
    }
  }

  function Twice(k: nat): nat {
    k + k
  }

  ghost predicate Even(n: nat) {
    exists k: nat :: n == Twice(k)
  }

  lemma EvenSum(a: nat, b: nat)
    requires Even(a) && Even(b)
    ensures Even(a + b)
  {
    var j: nat :| a == Twice(j);
    var k: nat :| b == Twice(k);
    assert a + b == Twice(j + k);
  }

  lemma EvenHalves(n: nat)
    requires Even(n)
    ensures n % 2 == 0
  {
  }

  lemma SizeEven(n: nat, wide: bool)
    ensures Even(SegmentSize(n, wide)) && Even(DataSize(n, wide))
  {
    var k := if wide then 2 * n else n;
    assert DataSize(n, wide) == Twice(k) && SegmentSize(n, wide) == Twice(k + 1);
  }

  lemma {:induction false} PutEven(p: Path, wide: bool)
    requires Normal(p)
    ensures Even(|PutSegments(p, wide).0|)
  {
    if p == [] {
      SizeEven(0, wide);
    } else {
      NothingPacked(p);
      FirstPut(p, p[1..], wide);
      PutEven(p[1..], wide);
      SegmentEven(p[0], p[1..], wide);
      EvenSum(|SegmentBytes(p[0], p[1..], wide)|, |PutSegments(p[1..], wide).0|);
    }
  }

  lemma SegmentEven(seg: Segment, rest: Path, wide: bool)
    ensures Even(|SegmentBytes(seg, rest, wide)|)
  {
    var w := SplitAt(|seg.asns|, 0);
    var split, last, more := |SplitBytes(seg.kind, seg.asns, 0, wide)|, SegmentSize(|seg.asns| - w, wide),
                             |Data(AllAsns(rest[..Packed(seg, rest)]), wide)|;
    SplitEven(seg.kind, seg.asns, 0, wide);
    SizeEven(|seg.asns| - w, wide);
    SizeEven(|AllAsns(rest[..Packed(seg, rest)])|, wide);
    EvenSum(split, last);
    EvenSum(split + last, more);
  }

  lemma {:induction false} SplitEven(kind: Kind, asns: seq<u32>, written: nat, wide: bool)
    requires written <= |asns|
    ensures Even(|SplitBytes(kind, asns, written, wide)|)
    decreases |asns| - written
  {
    if |asns| - written <= AS_SEGMENT_MAX {
      SizeEven(0, wide);
    } else {
      SplitEven(kind, asns, written + AS_SEGMENT_MAX, wide);
      SizeEven(AS_SEGMENT_MAX, wide);
      EvenSum(SegmentSize(AS_SEGMENT_MAX, wide), |SplitBytes(kind, asns, written + AS_SEGMENT_MAX, wide)|);
    }
  }

  // What the peer makes of a path: the path as told, put in order again where telling 16-bit numbers
  // has mixed up a set.
  lemma WireRoundTrip(p: Path, wide: bool)
    requires Sendable(p) && Splittable(p)
    ensures Parse(Put(p, wide).0, wide) == Some(Normalise(ToldPath(p, wide)))
    ensures wide ==> Parse(Put(p, wide).0, wide) == Some(p)
  {
    PutParsed(p, wide);
    PutEven(p, wide);
    EvenHalves(|PutSegments(p, wide).0|);
    PartsMerge(ToldPath(p, wide));
    assert p == [] ==> ToldPath(p, wide) == [];
    if wide {
      ToldWide(p);
      NormalFixed(p);
    }
  }

  lemma ToldWide(p: Path)
    ensures ToldPath(p, true) == p
  {
    forall i | 0 <= i < |p|
      ensures ToldPath(p, true)[i] == p[i]
    {
      assert ToldAll(p[i].asns, true) == p[i].asns;
    }
  }

  // ---- where it fails

  function Apart(p: Path): nat {
    if p == [] then 0 else (if p[0].kind.AsSequence? then 0 else 1) + Apart(p[1..])
  }

  lemma {:induction false} ApartConcat(p: Path, q: Path)
    ensures Apart(p + q) == Apart(p) + Apart(q)
  {
    if p == [] {
      assert p + q == q;
    } else {
      assert (p + q)[1..] == p[1..] + q;
      ApartConcat(p[1..], q);
    }
  }

  lemma {:induction false} ApartKept(p: Path)
    ensures Apart(Normalise(p)) == Apart(p)
  {
    if p == [] {
    } else {
      ApartKept(p[1..]);
      var seg, rest := Canonical(p[0]), Normalise(p[1..]);
      assert Attach(seg, rest)[1..]
          == if seg.kind.AsSequence? && rest != [] && rest[0].kind.AsSequence? then rest[1..] else rest;
    }
  }

  // Splitting a set or a confederation sequence leaves one segment more.
  lemma {:induction false} PartsApart(p: Path)
    ensures Apart(AllParts(p)) >= Apart(p)
    ensures Splittable(p) || Apart(AllParts(p)) > Apart(p)
  {
    if p == [] {
    } else {
      PartsApart(p[1..]);
      ApartConcat(Parts(p[0]), AllParts(p[1..]));
      PartsCount(p[0]);
    }
  }

  lemma PartsCount(seg: Segment)
    ensures Apart(Parts(seg))
         == if seg.kind.AsSequence? then 0 else if |seg.asns| <= AS_SEGMENT_MAX then 1 else 2
  {
    if |seg.asns| <= AS_SEGMENT_MAX {
      assert [seg][1..] == [];
    } else {
      var s, t := Parts(seg)[0], Parts(seg)[1];
      assert Parts(seg) == [s] + [t] && [s][1..] == [] && [t][1..] == [];
      ApartConcat([s], [t]);
    }
  }

  // Within 510 numbers a segment, the path comes back exactly if only sequences had to be split.
  lemma WireRoundTripIff(p: Path)
    requires Sendable(p)
    ensures Parse(Put(p, true).0, true) == Some(p) <==> Splittable(p)
  {
    if Splittable(p) {
      WireRoundTrip(p, true);
    } else {
      PutParsed(p, true);
      PutEven(p, true);
      EvenHalves(|PutSegments(p, true).0|);
      ToldWide(p);
      PartsApart(p);
      ApartKept(AllParts(p));
    }
  }

  // Every part is counted with all numbers written so far, which is right for the first one only.
  lemma {:induction false} SplitExcess(kind: Kind, asns: seq<u32>, written: nat, wide: bool)
    requires written <= |asns|
    ensures SplitCount(|asns|, written, wide) >= |SplitBytes(kind, asns, written, wide)|
    ensures written > 0 && |asns| - written > AS_SEGMENT_MAX
            ==> SplitCount(|asns|, written, wide) > |SplitBytes(kind, asns, written, wide)|
    decreases |asns| - written
  {
    if |asns| - written <= AS_SEGMENT_MAX {
    } else {
      SplitExcess(kind, asns, written + AS_SEGMENT_MAX, wide);
    }
  }

  lemma SegmentExcess(seg: Segment, rest: Path, wide: bool)
    requires Packed(seg, rest) == 0
    ensures SegmentCount(seg, rest, wide) >= |SegmentBytes(seg, rest, wide)|
    ensures SegmentCount(seg, rest, wide) == |SegmentBytes(seg, rest, wide)| <==> |seg.asns| <= 2 * AS_SEGMENT_MAX
  {
    assert rest[..0] == [] && AllAsns([]) == [];
    var w := SplitAt(|seg.asns|, 0);
    assert |SegmentBytes(seg, rest, wide)|
        == |SplitBytes(seg.kind, seg.asns, 0, wide)| + SegmentSize(|seg.asns| - w, wide);
    if |seg.asns| > AS_SEGMENT_MAX {
      SplitExcess(seg.kind, seg.asns, AS_SEGMENT_MAX, wide);
    }
  }

  lemma {:induction false} PutExcess(p: Path, wide: bool)
    requires Normal(p)
    ensures PutSegments(p, wide).1 >= |PutSegments(p, wide).0|
    ensures PutSegments(p, wide).1 == |PutSegments(p, wide).0| <==> AtMost(p, 2 * AS_SEGMENT_MAX)
  {
    if p == [] {
    } else {
      NothingPacked(p);
      FirstPut(p, p[1..], wide);
      PutExcess(p[1..], wide);
      SegmentExcess(p[0], p[1..], wide);
      assert AtMost(p, 2 * AS_SEGMENT_MAX)
          <==> |p[0].asns| <= 2 * AS_SEGMENT_MAX && AtMost(p[1..], 2 * AS_SEGMENT_MAX) by {
        assert forall i :: 0 < i < |p| ==> p[i] == p[1..][i - 1];
      }
    }
  }

  // The returned length, which goes into the attribute header, is the number of bytes written exactly
  // if no segment has more than 510 numbers.
  lemma PutCountExact(p: Path, wide: bool)
    requires Normal(p) && NonEmpty(p)
    ensures Put(p, wide).1 == |Put(p, wide).0| <==> AtMost(p, 2 * AS_SEGMENT_MAX)
  {
    PutExcess(p, wide);
  }

  // ---- what the parser accepts

  // Segments as they stand in an attribute: none empty, none longer than the length byte can tell, and the
  // numbers fit their width.
  ghost predicate OnWire(p: Path, wide: bool) {
    forall i :: 0 <= i < |p| ==> SegmentOnWire(p[i], wide)
  }

  ghost predicate SegmentOnWire(seg: Segment, wide: bool) {
    0 < |seg.asns| <= AS_SEGMENT_MAX && (wide || forall i :: 0 <= i < |seg.asns| ==> seg.asns[i] <= BGP_AS_MAX)
  }

  function PartBytes(p: Path, wide: bool): Bytes
    requires forall i :: 0 <= i < |p| ==> |p[i].asns| <= AS_SEGMENT_MAX
  {
    if p == [] then [] else Part(p[0].kind, p[0].asns, wide) + PartBytes(p[1..], wide)
  }

  lemma AsnBytesBack(b: Bytes, wide: bool)
    requires |b| >= Width(wide)
    ensures AsnBytes(AsnAt(b, wide), wide) == b[..Width(wide)] && (wide || AsnAt(b, wide) <= BGP_AS_MAX)
  {
    if wide {
      WordsBack(b[0], b[1], b[2], b[3]);
    }
  }

  lemma WordsBack(b0: u8, b1: u8, b2: u8, b3: u8)
    ensures var x := Word(Word(Word(b0, b1), b2), b3);
            0 <= x < 0x1_0000_0000 && x / 0x100_0000 == b0 && x / 0x1_0000 % 0x100 == b1 && x / 0x100 % 0x100 == b2
            && x % 0x100 == b3
  {
    var high := Word(b0, b1);
    var x := Word(Word(high, b2), b3);
    WordBack(b0, b1);
    WordBack(high, b2);
    WordBack(Word(high, b2), b3);
    assert x / 0x1_0000 == x / 0x100 / 0x100 && x / 0x100_0000 == x / 0x1_0000 / 0x100;
  }

  lemma WordBack(high: nat, low: u8)
    ensures Word(high, low) / 0x100 == high && Word(high, low) % 0x100 == low
  {
  }

  lemma CutTwice(b: Bytes, w: nat, m: nat)
    requires w + m <= |b|
    ensures b[..w + m] == b[..w] + b[w..][..m]
  {
  }

  lemma {:induction false} DataBack(b: Bytes, n: nat, wide: bool)
    requires |b| >= DataSize(n, wide)
    ensures |Decoded(b, n, wide)| == n && Data(Decoded(b, n, wide), wide) == b[..DataSize(n, wide)]
    ensures wide || forall i :: 0 <= i < n ==> Decoded(b, n, wide)[i] <= BGP_AS_MAX
  {
    if n == 0 {
    } else {
      var w := Width(wide);
      assert DataSize(n, wide) == w + DataSize(n - 1, wide);
      AsnBytesBack(b, wide);
      DataBack(b[w..], n - 1, wide);
      CutTwice(b, w, DataSize(n - 1, wide));
      var asns := Decoded(b, n, wide);
      assert asns == [AsnAt(b, wide)] + Decoded(b[w..], n - 1, wide) && asns[1..] == Decoded(b[w..], n - 1, wide);
    }
  }

  // Whatever is accepted is exactly the encoding of the segments it is taken for.
  lemma {:induction false} AcceptedIsParts(b: Bytes, wide: bool)
    requires ParseSegments(b, wide).Some?
    ensures OnWire(ParseSegments(b, wide).value, wide) && b == PartBytes(ParseSegments(b, wide).value, wide)
    decreases |b|
  {
    if b == [] {
    } else {
      var n, size := b[1], SegmentSize(b[1], wide);
      var seg := Segment(KindOf(b[0]).value, Decoded(b[2..], n, wide));
      AcceptedIsParts(b[size..], wide);
      DataBack(b[2..], n, wide);
      HeadPart(b, seg, wide);
      OneMorePart(b, seg, ParseSegments(b[size..], wide).value, wide);
    }
  }

  lemma OneMorePart(b: Bytes, seg: Segment, rest: Path, wide: bool)
    requires SegmentOnWire(seg, wide) && OnWire(rest, wide) && SegmentSize(|seg.asns|, wide) <= |b|
    requires Part(seg.kind, seg.asns, wide) == b[..SegmentSize(|seg.asns|, wide)]
    requires PartBytes(rest, wide) == b[SegmentSize(|seg.asns|, wide)..]
    ensures OnWire([seg] + rest, wide) && PartBytes([seg] + rest, wide) == b
  {
    var p := [seg] + rest;
    assert p[1..] == rest && forall i :: 0 < i < |p| ==> p[i] == rest[i - 1];
    assert b == b[..SegmentSize(|seg.asns|, wide)] + b[SegmentSize(|seg.asns|, wide)..];
  }

  lemma HeadPart(b: Bytes, seg: Segment, wide: bool)
    requires |b| > 2 && KindOf(b[0]) == Some(seg.kind) && |seg.asns| == b[1] && SegmentSize(b[1], wide) <= |b|
    requires Data(seg.asns, wide) == b[2..][..DataSize(b[1], wide)]
    ensures Part(seg.kind, seg.asns, wide) == b[..SegmentSize(b[1], wide)]
  {
    assert b[..SegmentSize(b[1], wide)] == [b[0], b[1]] + b[2..][..DataSize(b[1], wide)];
  }

  lemma ToldOnWire(seg: Segment, wide: bool)
    requires SegmentOnWire(seg, wide)
    ensures ToldAll(seg.asns, wide) == seg.asns
  {
  }

  lemma {:induction false} PartsAccepted(p: Path, wide: bool)
    requires OnWire(p, wide)
    ensures ParseSegments(PartBytes(p, wide), wide) == Some(p)
  {
    if p == [] {
    } else {
      assert SegmentOnWire(p[0], wide) && forall i :: 0 < i < |p| ==> p[1..][i - 1] == p[i];
      PartsAccepted(p[1..], wide);
      ToldOnWire(p[0], wide);
      PartParsed(p[0].kind, p[0].asns, PartBytes(p[1..], wide), wide);
      assert p == [p[0]] + p[1..];
    }
  }

  // The parser accepts exactly the encodings of segments that can stand on the wire, and gives these segments.
  lemma AcceptsIff(b: Bytes, p: Path, wide: bool)
    ensures ParseSegments(b, wide) == Some(p) <==> OnWire(p, wide) && b == PartBytes(p, wide)
  {
    if ParseSegments(b, wide) == Some(p) {
      AcceptedIsParts(b, wide);
    }
    if OnWire(p, wide) {
      PartsAccepted(p, wide);
    }
  }

  // Both at once, for every normal path with numbers in every segment: the length is right and the path
  // comes back exactly if no segment has more than 510 numbers and only sequences exceed 255.
  lemma SentRightIff(p: Path)
    requires Normal(p) && NonEmpty(p)
    ensures Put(p, true).1 == |Put(p, true).0| && Parse(Put(p, true).0, true) == Some(p)
            <==> AtMost(p, 2 * AS_SEGMENT_MAX) && Splittable(p)
  {
    PutCountExact(p, true);
    if AtMost(p, 2 * AS_SEGMENT_MAX) {
      WireRoundTripIff(p);
    }
  }

  // A path of 511 different numbers in one AS_SEQUENCE.
  function Long(): Path {
    [Segment(AsSequence, seq(511, i requires 0 <= i < 511 => i + 1))]
  }

  // Of 511 numbers two parts are split off, and both are the first 255.
  lemma SplitTwice(asns: seq<u32>, wide: bool)
    requires |asns| == 511
    ensures SplitBytes(AsSequence, asns, 0, wide)
         == Part(AsSequence, asns[..255], wide) + Part(AsSequence, asns[..255], wide)
    ensures SplitAt(511, 0) == 510
    ensures SplitCount(511, 0, wide) == SegmentSize(255, wide) + SegmentSize(510, wide)
  {
    var part := Part(AsSequence, asns[..255], wide);
    assert SplitBytes(AsSequence, asns, 510, wide) == [];
    assert SplitBytes(AsSequence, asns, 255, wide) == part + [] == part;
    assert SplitBytes(AsSequence, asns, 0, wide) == part + SplitBytes(AsSequence, asns, 255, wide);
    assert SplitAt(511, 510) == 510 && SplitAt(511, 255) == 510;
    assert SplitCount(511, 510, wide) == 0 && SplitCount(511, 255, wide) == SegmentSize(510, wide);
  }

  // The splitting loop writes its first 255 numbers twice, then the last one; the returned length is
  // 1020 bytes too large in 32-bit form.
  lemma LongSegmentGarbled()
    ensures var part := Part(AsSequence, Long()[0].asns[..255], true);
            && Put(Long(), true).0 == part + part + Part(AsSequence, [511], true)
            && Put(Long(), true).1 == |Put(Long(), true).0| + 1020
  {
    var seg := Long()[0];
    SplitTwice(seg.asns, true);
    assert Long()[1..] == [] && Packed(seg, []) == 0 && AllAsns([]) == [];
    assert seg.asns[510..] == [511];
    assert PutSegments([], true) == ([], 0) && AfterPacked(seg, []) == [];
    assert SegmentBytes(seg, [], true)
        == SplitBytes(AsSequence, seg.asns, 0, true) + Part(AsSequence, [511], true) + [];
    assert SegmentCount(seg, [], true) == SplitCount(511, 0, true) + SegmentSize(1, true);
    assert |Part(AsSequence, seg.asns[..255], true)| == SegmentSize(255, true);
  }
}
