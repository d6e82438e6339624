// The formats pinned by example: what is printed and what is put on the wire, character by character and byte
// by byte. The round trips say that reading undoes writing; these say what is written.
module Samples {
  import opened Util
  import opened Prefix
  import opened Text
  import opened AsPath
  import AsPathText
  import AsPathWire
  import Community
  import Wire

  // One digit numbers print as their digit.
  lemma OneDigit(n: nat)
    requires n < 10
    ensures Decimal(n) == [Digit(n)]
  {
  }

  // Sequences stand bare, sets in braces, confederations in brackets (qsrx/bgpd/bgp_aspath.c:355-376, 501-605).
  lemma PathText()
    ensures AsPathText.Print([Segment(AsSequence, [1, 2])]) == "1 2"
    ensures AsPathText.Print([Segment(AsSet, [3, 4])]) == "{3,4}"
    ensures AsPathText.Print([Segment(AsConfedSequence, [5, 6])]) == "(5 6)"
    ensures AsPathText.Print([Segment(AsConfedSet, [7, 8])]) == "[7,8]"
  {
    PairText(AsSequence, 1, 2);
    PairText(AsSet, 3, 4);
    PairText(AsConfedSequence, 5, 6);
    PairText(AsConfedSet, 7, 8);
  }

  lemma PairText(kind: Kind, x: u32, y: u32)
    requires x < 10 && y < 10
    ensures AsPathText.Print([Segment(kind, [x, y])])
         == AsPathText.Opening(kind) + [Digit(x), AsPathText.Separator(kind), Digit(y)] + AsPathText.Closing(kind)
  {
    OneDigit(x);
    OneDigit(y);
    var p: Path := [Segment(kind, [x, y])];
    assert [x, y][1..] == [y] && p[1..] == [];
    assert AsPathText.Join([y], AsPathText.Separator(kind)) == [Digit(y)];
    assert AsPathText.Join([x, y], AsPathText.Separator(kind)) == [Digit(x), AsPathText.Separator(kind), Digit(y)];
    assert AsPathText.Print(p[1..]) == "" && AsPathText.Print(p) == AsPathText.PrintSegment(p[0]) + "" + "";
  }

  // Neighbouring segments are a space apart.
  lemma SegmentsApart(x: Segment, y: Segment)
    ensures AsPathText.Print([x, y]) == AsPathText.PrintSegment(x) + " " + AsPathText.PrintSegment(y)
  {
    var p: Path := [x, y];
    assert p[1..] == [y] && p[1..][1..] == [];
    assert AsPathText.Print(p[1..]) == AsPathText.PrintSegment(y) + "" + "";
  }

  // Well-known communities print by name, others as two numbers (qsrx/bgpd/bgp_community.c:254-289).
  lemma CommunityText()
    ensures Community.Print([0x1_0002]) == "1:2"
    ensures Community.Print([0]) == "internet" && Community.Print([0xFFFF_FF01]) == "no-export"
    ensures Community.Print([0xFFFF_FF02]) == "no-advertise" && Community.Print([0xFFFF_FF03]) == "local-AS"
  {
    OneDigit(1);
    OneDigit(2);
    assert 0x1_0002 / 0x1_0000 == 1 && 0x1_0002 % 0x1_0000 == 2;
    assert Community.Word(0x1_0002) == "1:2";
    forall v: u32
      ensures Community.Print([v]) == Community.Word(v)
    {
      assert [v][1..] == [] && Community.Word(v) + "" + "" == Community.Word(v);
    }
  }

  // What is no list of communities: a number without its second half, one with three, an unknown word, nothing.
  lemma BadCommunities()
    ensures Community.Read("1:") == None && Community.Read("x") == None
    ensures Community.Read("") == None && Community.Read(":1") == None
  {
  }

  lemma ThreeHalves()
    ensures Community.Read("1:2:3") == None
  {
    assert "1:2:3"[1..] == ":2:3" && ":2:3"[1..] == "2:3" && "2:3"[1..] == ":3";
    assert Community.ReadPair(":3", 0x1_0000, 2, true, true) == Community.Bad;
    assert Community.ReadPair("2:3", 0x1_0000, 0, true, false) == Community.Bad;
    assert Community.ReadPair(":2:3", 0, 1, false, true) == Community.Bad;
    assert Community.NextToken("1:2:3") == Community.Bad;
  }

  // Type, count and big-endian numbers, four bytes each or two; what does not fit two is AS_TRANS
  // (sections 4.3 of RFC 4271 and 4.2.2 of RFC 6793).
  lemma PathBytes()
    ensures AsPathWire.Part(AsSequence, [1, 70000], true) == [2, 2, 0, 0, 0, 1, 0, 1, 0x11, 0x70]
    ensures AsPathWire.Part(AsSequence, [1, 70000], false) == [2, 2, 0, 1, 0x5B, 0xA0]
    ensures AsPathWire.Part(AsSet, [3], false) == [1, 1, 0, 3]
    ensures AsPathWire.Part(AsConfedSequence, [3], false) == [3, 1, 0, 3]
    ensures AsPathWire.Part(AsConfedSet, [3], false) == [4, 1, 0, 3]
  {
    TwoNumbers(1, 70000, true);
    TwoNumbers(1, 70000, false);
    OneNumber(3);
  }

  lemma TwoNumbers(x: u32, y: u32, wide: bool)
    ensures AsPathWire.Data([x, y], wide) == AsPathWire.AsnBytes(x, wide) + AsPathWire.AsnBytes(y, wide)
  {
    assert [x, y][1..] == [y] && [y][1..] == [];
    assert AsPathWire.Data([y], wide) == AsPathWire.AsnBytes(y, wide) + [];
  }

  lemma OneNumber(x: u32)
    ensures AsPathWire.Data([x], false) == AsPathWire.AsnBytes(x, false)
  {
    assert [x][1..] == [] && AsPathWire.AsnBytes(x, false) + [] == AsPathWire.AsnBytes(x, false);
  }

  function V4(b0: u8, b1: u8, plen: u8): Key
    requires plen <= 32
  {
    Key([0, 0, 0, 0, 0, 0, 0, 0, 0, 0, 0xFF, 0xFF, b0, b1, 0, 0], 96 + plen)
  }

  function V6(b0: u8, b1: u8, last: u8, plen: u8): Key {
    Key([b0, b1, 0, 0, 0, 0, 0, 0, 0, 0, 0, 0, 0, 0, 0, last], plen)
  }

  // Multicast, link-local, loopback and unspecified destinations are refused, the default routes and ordinary ones
  // are not (qsrx/babeld/util.c:367-377).
  lemma MartianSamples()
    ensures Martian(V6(0xFF, 2, 0, 16)) && Martian(V6(0xFE, 0x80, 0, 64)) && Martian(V6(0xFE, 0x80, 0, 10))
    ensures Martian(V6(0, 0, 1, 128)) && Martian(V6(0, 0, 0, 128))
    ensures !Martian(V6(0, 0, 0, 0)) && !Martian(V6(0x20, 1, 0, 32)) && !Martian(V6(0xFE, 0xC0, 0, 10))
  {
    assert V6(0, 0, 1, 128).prefix[..15] == seq(15, _ => 0) && V6(0, 0, 0, 128).prefix[..15] == seq(15, _ => 0);
  }

  lemma MartianV4Samples()
    ensures Martian(V4(127, 0, 8)) && Martian(V4(0, 0, 8)) && Martian(V4(224, 0, 4)) && Martian(V4(255, 255, 32))
    ensures !Martian(V4(0, 0, 0)) && !Martian(V4(10, 0, 8)) && !Martian(V4(192, 168, 16)) && !Martian(V4(223, 0, 8))
  {
  }

  const ID: Wire.RouterId8 := [1, 2, 3, 4, 5, 6, 7, 8]
  const DOC := Key([0x20, 1, 0x0D, 0xB8, 0, 0, 0, 0, 0, 0, 0, 0, 0, 0, 0, 0], 32)

  // The first update of a packet: the router-id message, then the update with the flag that makes the prefix the
  // default for later ones (sections 4.4.7 and 4.4.9 of RFC 6126).
  lemma UpdateBytes()
    ensures var a := Wire.Advert(ID, DOC, 0x0102, 0x0304, None);
            && Wire.AdvertOk(a)
            && Wire.Introduction(Wire.BLANK, a, [0, 0, 0, 0]) == [6, 10, 0, 0, 1, 2, 3, 4, 5, 6, 7, 8]
            && Wire.UpdateTlv(Wire.BLANK, a, 400)
               == [8, 14, 2, 0x80, 32, 0, 1, 0x90, 1, 2, 3, 4, 0x20, 1, 0x0D, 0xB8]
  {
    var a := Wire.Advert(ID, DOC, 0x0102, 0x0304, None);
    DocOk();
    assert Wire.IdInPrefix(a) ==> DOC.plen == 128;
    assert Wire.Omitted(Wire.BLANK, DOC) == 0 && Wire.Flags(Wire.BLANK, a) == 0x80;
    assert Wire.U16(400) == [1, 0x90] && Wire.U16(0x0102) == [1, 2] && Wire.U16(0x0304) == [3, 4];
  }

  lemma DocOk()
    ensures Masked(DOC) && !Wire.IsV4(DOC) && Wire.PrefixBytes(DOC, 0) == [0x20, 1, 0x0D, 0xB8]
  {
    assert MaskPrefix(DOC.prefix, 32) == DOC.prefix;
    assert DOC.prefix[..12][0] != V4PREFIX[0];
  }

  // The retraction of everything (section 4.4.9 of RFC 6126).
  lemma WildcardBytes()
    ensures Wire.WildcardTlv(0x0102) == [8, 10, 0, 0x40, 0, 0, 0xFF, 0xFF, 1, 2, 0xFF, 0xFF]
  {
  }
}
