// AS paths as text (qsrx/bgpd/bgp_aspath.c:355-376, 501-605, 1624-1835).
module AsPathText {
  import opened Util
  import opened Text
  import opened AsPath

  // ---- printing

  function Separator(kind: Kind): char {
    if IsSet(kind) then ',' else ' '
  }

  // aspath_delimiter_char; sequences are not delimited.
  function Opening(kind: Kind): string {
    match kind
    case AsSet => "{"
    case AsConfedSet => "["
    case AsConfedSequence => "("
    case AsSequence => ""
  }

  function Closing(kind: Kind): string {
    match kind
    case AsSet => "}"
    case AsConfedSet => "]"
    case AsConfedSequence => ")"
    case AsSequence => ""
  }

  function Join(asns: seq<u32>, separator: char): string {
    if asns == [] then ""
    else Decimal(asns[0]) + if |asns| == 1 then "" else [separator] + Join(asns[1..], separator)
  }

  function PrintSegment(seg: Segment): string {
    Opening(seg.kind) + Join(seg.asns, Separator(seg.kind)) + Closing(seg.kind)
  }

  // The string of a path.
  function Print(p: Path): string {
    if p == [] then ""
    else PrintSegment(p[0]) + (if |p| == 1 then "" else " ") + Print(p[1..])
  }

  // ---- reading

  datatype Token =
    | Number(asn: u32)
    | Start(kind: Kind)
    | End
    | Unknown

  predicate Skipped(c: char) {
    IsSpace(c) || c == ','
  }

  function SkipSeparators(s: string): (t: string)
    ensures |t| <= |s| && (t == [] || !Skipped(t[0]))
  {
    if s != [] && Skipped(s[0]) then SkipSeparators(s[1..]) else s
  }

  // The token at the start of a text without separators in front.
  function TokenAt(t: string): (r: (Token, string))
    requires t != [] && !Skipped(t[0])
    ensures r.0.Unknown? || |r.1| < |t|
  {
    match t[0]
    case '{' => (Start(AsSet), t[1..])
    case '[' => (Start(AsConfedSet), t[1..])
    case '(' => (Start(AsConfedSequence), t[1..])
    case '}' => (End, t[1..])
    case ']' => (End, t[1..])
    case ')' => (End, t[1..])
    case c =>
      if IsDigit(c) then
        var (n, rest) := ReadDigits(t[1..], DigitValue(c));
        (Number(n), rest)
      else (Unknown, t)
  }

  // aspath_gettoken: the next token and the text after it, or None at the end.
  function NextToken(s: string): (r: Option<(Token, string)>)
    ensures r.Some? && !r.value.0.Unknown? ==> |r.value.1| < |s|
  {
    var t := SkipSeparators(s);
    if t == [] || t[0] == '\0' then None else Some(TokenAt(t))
  }

  // aspath_as_add: to the last segment.
  function AddToLast(p: Path, asn: u32): Path {
    if p == [] then p
    else p[..|p| - 1] + [p[|p| - 1].(asns := p[|p| - 1].asns + [asn])]
  }

  // What a token makes of the path so far; needtype is set when the next number starts a sequence.
  function AfterToken(p: Path, needtype: bool, token: Token): (Path, bool)
    requires !token.Unknown?
  {
    match token
    case Number(asn) => (AddToLast(if needtype then p + [Segment(AsSequence, [])] else p, asn), false)
    case Start(kind) => (p + [Segment(kind, [])], false)
    case End => (p, true)
  }

  // aspath_str2aspath from the middle of a text.
  function ReadFrom(s: string, p: Path, needtype: bool): Option<Path>
    decreases |s|
  {
    match NextToken(s)
    case None => Some(p)
    case Some((token, rest)) =>
      if token.Unknown? then None
      else
        var (p', needtype') := AfterToken(p, needtype, token);
        ReadFrom(rest, p', needtype')
  }

  function Read(s: string): Option<Path> {
    ReadFrom(s, [], true)
  }

  // A character that can stand in a path.
  predicate Legible(c: char) {
    Skipped(c) || IsDigit(c) || c in {'{', '[', '(', '}', ']', ')'}
  }

  lemma {:induction false} SkippedLegible(s: string)
    ensures |SkipSeparators(s)| <= |s| && SkipSeparators(s) == s[|s| - |SkipSeparators(s)|..]
    ensures forall c :: c in s && !Legible(c) ==> c in SkipSeparators(s)
  {
    if s != [] && Skipped(s[0]) {
      SkippedLegible(s[1..]);
    }
  }

  lemma {:induction false} DigitsLegible(s: string, acc: u32)
    ensures var rest := ReadDigits(s, acc).1;
            (forall c :: c in rest ==> c in s) && forall c :: c in s && !Legible(c) ==> c in rest
  {
    if s == [] || !IsDigit(s[0]) {
    } else {
      assert s == [s[0]] + s[1..];
      DigitsLegible(s[1..], (acc * 10 + DigitValue(s[0])) % 0x1_0000_0000);
    }
  }

  lemma TokenLegible(t: string)
    requires t != [] && !Skipped(t[0])
    ensures var (token, rest) := TokenAt(t);
            && (token.Unknown? <==> !Legible(t[0]))
            && (!token.Unknown?
                ==> (forall c :: c in rest ==> c in t) && forall c :: c in t && !Legible(c) ==> c in rest)
  {
    assert t == [t[0]] + t[1..];
    if IsDigit(t[0]) {
      DigitsLegible(t[1..], DigitValue(t[0]));
    }
  }

  // A text is read as a path exactly if it has no other characters, whatever their order.
  lemma {:induction false} ReadableIff(s: string, p: Path, needtype: bool)
    requires '\0' !in s
    ensures ReadFrom(s, p, needtype).Some? <==> forall c :: c in s ==> Legible(c)
    decreases |s|
  {
    var t := SkipSeparators(s);
    SkippedLegible(s);
    if t != [] {
      TokenLegible(t);
      var (token, rest) := TokenAt(t);
      if !token.Unknown? {
        var (p', needtype') := AfterToken(p, needtype, token);
        ReadableIff(rest, p', needtype');
      }
    }
  }

  // ---- the round trip

  // What becomes of a path: empty sequences vanish and neighbouring ones become one.
  function Fuse(p: Path): Path {
    if p == [] then []
    else if p[0].kind.AsSequence? && p[0].asns == [] then Fuse(p[1..])
    else Attach(p[0], Fuse(p[1..]))
  }

  // A path whose segments can be told apart in print.
  ghost predicate Distinct(p: Path) {
    NoEmptySequence(p)
    && forall i, j :: 0 <= i && j == i + 1 < |p| ==> !(p[i].kind.AsSequence? && p[j].kind.AsSequence?)
  }

  lemma SeparatorSkipped(c: char, s: string)
    requires Skipped(c)
    ensures NextToken([c] + s) == NextToken(s)
  {
    assert ([c] + s)[1..] == s;
  }

  lemma NumberToken(n: u32, rest: string)
    requires NoDigitFirst(rest)
    ensures NextToken(Decimal(n) + rest) == Some((Number(n), rest))
  {
    NumberRead(n, rest);
    DigitToken(Decimal(n) + rest);
  }

  lemma DigitToken(s: string)
    requires s != [] && IsDigit(s[0])
    ensures NextToken(s) == Some((Number(ReadDigits(s, 0).0), ReadDigits(s, 0).1))
  {
    FirstDigit(s);
  }

  // Numbers after an open segment go into it.
  lemma {:induction false} JoinRead(asns: seq<u32>, separator: char, rest: string, p: Path, seg: Segment)
    requires separator == ',' || separator == ' '
    requires NoDigitFirst(rest)
    ensures ReadFrom(Join(asns, separator) + rest, p + [seg], false)
         == ReadFrom(rest, p + [seg.(asns := seg.asns + asns)], false)
  {
    if asns == [] {
      assert seg.asns + asns == seg.asns && "" + rest == rest;
    } else {
      var seg' := seg.(asns := seg.asns + [asns[0]]);
      var more := if |asns| == 1 then "" else [separator] + Join(asns[1..], separator);
      Associative(Decimal(asns[0]), more, rest);
      NumberToken(asns[0], more + rest);
      assert AddToLast(p + [seg], asns[0]) == p + [seg'];
      assert seg'.asns + asns[1..] == seg.asns + asns;
      JoinRead(asns[1..], separator, rest, p, seg');
      if |asns| == 1 {
        assert asns[1..] == [] && "" + rest == rest;
      } else {
        Associative([separator], Join(asns[1..], separator), rest);
        SeparatorSkipped(separator, Join(asns[1..], separator) + rest);
      }
    }
  }

  lemma DelimiterToken(c: char, rest: string)
    requires c == '{' || c == '[' || c == '(' || c == '}' || c == ']' || c == ')'
    ensures NextToken([c] + rest) == Some(((match c
                                            case '{' => Start(AsSet)
                                            case '[' => Start(AsConfedSet)
                                            case '(' => Start(AsConfedSequence)
                                            case _ => End), rest))
  {
    assert ([c] + rest)[1..] == rest;
    assert SkipSeparators([c] + rest) == [c] + rest;
  }

  // A delimited segment is read as it is.
  lemma DelimitedRead(seg: Segment, rest: string, p: Path, needtype: bool)
    requires !seg.kind.AsSequence?
    ensures ReadFrom(PrintSegment(seg) + rest, p, needtype) == ReadFrom(rest, p + [seg], true)
  {
    var inner := Join(seg.asns, Separator(seg.kind));
    var closed := Closing(seg.kind) + rest;
    assert PrintSegment(seg) + rest == Opening(seg.kind) + (inner + closed);
    DelimiterToken(Opening(seg.kind)[0], inner + closed);
    var empty := Segment(seg.kind, []);
    JoinRead(seg.asns, Separator(seg.kind), closed, p, empty);
    assert empty.(asns := [] + seg.asns) == seg;
    DelimiterToken(Closing(seg.kind)[0], rest);
  }

  // The numbers of a sequence open it, or go into the one that is open.
  lemma SequenceRead(asns: seq<u32>, rest: string, p: Path, needtype: bool)
    requires asns != [] && NoDigitFirst(rest)
    requires needtype || (p != [] && p[|p| - 1].kind.AsSequence?)
    ensures var p' := if needtype then p + [Segment(AsSequence, asns)]
                      else p[..|p| - 1] + [Segment(AsSequence, p[|p| - 1].asns + asns)];
            ReadFrom(PrintSegment(Segment(AsSequence, asns)) + rest, p, needtype) == ReadFrom(rest, p', false)
  {
    var text := Join(asns, ' ') + rest;
    assert PrintSegment(Segment(AsSequence, asns)) == Join(asns, ' ');
    if needtype {
      OpensSequence(asns, rest, p);
      JoinRead(asns, ' ', rest, p, Segment(AsSequence, []));
      assert [] + asns == asns;
    } else {
      assert p == p[..|p| - 1] + [p[|p| - 1]];
      JoinRead(asns, ' ', rest, p[..|p| - 1], p[|p| - 1]);
    }
  }

  lemma OpensSequence(asns: seq<u32>, rest: string, p: Path)
    requires asns != [] && NoDigitFirst(rest)
    ensures ReadFrom(Join(asns, ' ') + rest, p, true)
         == ReadFrom(Join(asns, ' ') + rest, p + [Segment(AsSequence, [])], false)
  {
    var more := if |asns| == 1 then "" else [' '] + Join(asns[1..], ' ');
    Associative(Decimal(asns[0]), more, rest);
    NumberToken(asns[0], more + rest);
  }

  // Appending a fused path to what has been read.
  function Onto(p: Path, f: Path): Path {
    if p != [] && p[|p| - 1].kind.AsSequence? && f != [] && f[0].kind.AsSequence?
    then p[..|p| - 1] + [Segment(AsSequence, p[|p| - 1].asns + f[0].asns)] + f[1..]
    else p + f
  }

  predicate NeedsType(p: Path) {
    p == [] || !p[|p| - 1].kind.AsSequence?
  }

  // The path once a printed segment has been read.
  function AfterSegment(p: Path, seg: Segment): Path {
    if !seg.kind.AsSequence? then p + [seg]
    else if seg.asns == [] then p
    else if NeedsType(p) then p + [seg]
    else p[..|p| - 1] + [Segment(AsSequence, p[|p| - 1].asns + seg.asns)]
  }

  lemma SegmentRead(seg: Segment, rest: string, p: Path)
    requires NoDigitFirst(rest)
    ensures var p' := AfterSegment(p, seg);
            ReadFrom(PrintSegment(seg) + rest, p, NeedsType(p)) == ReadFrom(rest, p', NeedsType(p'))
  {
    if !seg.kind.AsSequence? {
      DelimitedRead(seg, rest, p, NeedsType(p));
    } else if seg.asns != [] {
      SequenceRead(seg.asns, rest, p, NeedsType(p));
    } else {
      assert PrintSegment(seg) + rest == rest;
    }
  }

  lemma OntoMerged(asns: seq<u32>, p: Path, f: Path)
    requires !NeedsType(p)
    ensures Onto(p[..|p| - 1] + [Segment(AsSequence, p[|p| - 1].asns + asns)], f)
         == Onto(p, Attach(Segment(AsSequence, asns), f))
  {
    var last := p[|p| - 1].asns;
    if f != [] && f[0].kind.AsSequence? {
      Associative(last, asns, f[0].asns);
    } else {
      assert [Segment(AsSequence, asns)] + f == Attach(Segment(AsSequence, asns), f);
    }
  }

  lemma OntoAttach(seg: Segment, p: Path, f: Path)
    requires seg.kind.AsSequence? ==> seg.asns != []
    ensures Onto(AfterSegment(p, seg), f) == Onto(p, Attach(seg, f))
  {
    if seg.kind.AsSequence? && !NeedsType(p) {
      OntoMerged(seg.asns, p, f);
    } else if seg.kind.AsSequence? && f != [] && f[0].kind.AsSequence? {
      assert (p + [seg])[..|p|] == p;
      Associative(p, [Segment(AsSequence, seg.asns + f[0].asns)], f[1..]);
    } else {
      Associative(p, [seg], f);
    }
  }

  lemma {:induction false} PrintRead(q: Path, p: Path)
    ensures ReadFrom(Print(q), p, NeedsType(p)) == Some(Onto(p, Fuse(q)))
    decreases |q|
  {
    if q == [] {
      assert p + [] == p;
    } else {
      var gap := if |q| == 1 then "" else " ";
      Associative(PrintSegment(q[0]), gap, Print(q[1..]));
      SegmentRead(q[0], gap + Print(q[1..]), p);
      var p' := AfterSegment(p, q[0]);
      GapSkipped(q[1..], p', NeedsType(p'));
      PrintRead(q[1..], p');
      if !(q[0].kind.AsSequence? && q[0].asns == []) {
        OntoAttach(q[0], p, Fuse(q[1..]));
      }
    }
  }

  lemma GapSkipped(q: Path, p: Path, needtype: bool)
    ensures ReadFrom((if |q| == 0 then "" else " ") + Print(q), p, needtype) == ReadFrom(Print(q), p, needtype)
  {
    if |q| == 0 {
      assert "" + Print(q) == Print(q);
    } else {
      SeparatorSkipped(' ', Print(q));
    }
  }

  // Reading back what was printed gives the path with its neighbouring sequences fused.
  lemma TextRoundTrip(p: Path)
    ensures Read(Print(p)) == Some(Fuse(p))
  {
    PrintRead(p, []);
    assert [] + Fuse(p) == Fuse(p);
  }

  lemma AttachDistinct(seg: Segment, f: Path)
    requires Distinct(f) && (seg.kind.AsSequence? ==> seg.asns != [])
    ensures Distinct(Attach(seg, f))
  {
  }

  lemma {:induction false} FuseDistinct(p: Path)
    ensures Distinct(Fuse(p))
  {
    if p == [] {
    } else {
      FuseDistinct(p[1..]);
      if !(p[0].kind.AsSequence? && p[0].asns == []) {
        AttachDistinct(p[0], Fuse(p[1..]));
      }
    }
  }

  lemma {:induction false} DistinctFixed(p: Path)
    requires Distinct(p)
    ensures Fuse(p) == p
  {
    if p == [] {
    } else {
      assert forall i :: 0 <= i < |p[1..]| ==> p[1..][i] == p[i + 1];
      DistinctFixed(p[1..]);
      assert p == [p[0]] + p[1..];
    }
  }

  // It is the same path exactly if no sequence is empty and no two sequences are neighbours.
  lemma TextRoundTripIff(p: Path)
    ensures Read(Print(p)) == Some(p) <==> Distinct(p)
  {
    TextRoundTrip(p);
    FuseDistinct(p);
    if Distinct(p) {
      DistinctFixed(p);
    }
  }

  // ---- the reading loops

  // aspath_gettoken.
  method GetToken(buf: string) returns (next: Option<(Token, string)>)
    ensures next == NextToken(buf)
  {
    var p := 0;
    assert buf[0..] == buf;
    while p < |buf| && Skipped(buf[p])
      invariant p <= |buf| && SkipSeparators(buf[p..]) == SkipSeparators(buf)
    {
      assert buf[p..][1..] == buf[p + 1..];
      p := p + 1;
    }
    if p == |buf| || buf[p] == '\0' {
      return None;
    }
    ghost var t := buf[p..];
    assert t[1..] == buf[p + 1..];
    match buf[p] {
      case '{' => return Some((Start(AsSet), buf[p + 1..]));
      case '[' => return Some((Start(AsConfedSet), buf[p + 1..]));
      case '(' => return Some((Start(AsConfedSequence), buf[p + 1..]));
      case '}' => return Some((End, buf[p + 1..]));
      case ']' => return Some((End, buf[p + 1..]));
      case ')' => return Some((End, buf[p + 1..]));
      case c =>
        if !IsDigit(c) {
          return Some((Unknown, buf[p..]));
        }
        var asval: u32 := DigitValue(c);
        p := p + 1;
        while p < |buf| && IsDigit(buf[p])
          invariant p <= |buf| && ReadDigits(buf[p..], asval) == ReadDigits(t[1..], DigitValue(c))
        {
          assert buf[p..][1..] == buf[p + 1..];
          asval := (asval * 10 + DigitValue(buf[p])) % 0x1_0000_0000;
          p := p + 1;
        }
        return Some((Number(asval), buf[p..]));
    }
  }

  // aspath_str2aspath.
  method Str2Aspath(str: string) returns (aspath: Option<Path>)
    ensures aspath == Read(str)
  {
    var segments: Path, kind, needtype := [], AsSequence, true;
    var s := str;
    while true
      invariant needtype ==> kind == AsSequence
      invariant ReadFrom(s, segments, needtype) == Read(str)
      decreases |s|
    {
      var next := GetToken(s);
      if next.None? {
        return Some(segments);
      }
      s := next.value.1;
      match next.value.0 {
        case Number(asn) =>
          if needtype {
            segments := segments + [Segment(kind, [])];
            needtype := false;
          }
          segments := AddToLast(segments, asn);
        case Start(k) =>
          kind := k;
          segments := segments + [Segment(kind, [])];
          needtype := false;
        case End =>
          kind := AsSequence;
          needtype := true;
        case Unknown =>
          return None;
      }
    }
  }

  // ---- the printing loop and its buffer

  // snprintf of a piece that fits with its terminating zero.
  method Put(buf: array<char>, len: nat, piece: string) returns (len': nat)
    requires len + |piece| < buf.Length
    modifies buf
    ensures len' == len + |piece| && buf[..len'] == old(buf[..len]) + piece
  {
    forall i | 0 <= i < |piece| {
      buf[len + i] := piece[i];
    }
    len' := len + |piece|;
    assert buf[..len'] == old(buf[..len]) + piece;
  }

  lemma Regrouped(a: string, b: string, c: string, d: string, e: string)
    ensures a + (b + (c + d + e)) == a + (b + c) + d + e
  {
  }

  lemma {:induction false} JoinAppend(asns: seq<u32>, asn: u32, separator: char)
    ensures Join(asns + [asn], separator)
         == Join(asns, separator) + (if asns == [] then "" else [separator]) + Decimal(asn)
  {
    if asns == [] {
      assert asns + [asn] == [asn] && "" + "" + Decimal(asn) == Decimal(asn) + "";
    } else {
      assert (asns + [asn])[1..] == asns[1..] + [asn];
      JoinAppend(asns[1..], asn, separator);
      if |asns| == 1 {
        assert asns[1..] == [] && "" + "" + Decimal(asn) == Decimal(asn);
        Associative(Decimal(asns[0]), [separator], Decimal(asn));
        assert Decimal(asns[0]) + "" == Decimal(asns[0]);
      } else {
        Regrouped(Decimal(asns[0]), [separator], Join(asns[1..], separator), [separator], Decimal(asn));
      }
    }
  }

  lemma {:induction false} JoinLength(asns: seq<u32>, separator: char)
    ensures |Join(asns, separator)| + (if asns == [] then 0 else 1) <= 11 * |asns|
  {
    if asns == [] {
    } else {
      AsnLength(asns[0]);
      JoinLength(asns[1..], separator);
    }
  }

  // The room the code reckons with is enough for a segment, the space behind it and the final zero.
  lemma SegmentLength(seg: Segment)
    ensures |PrintSegment(seg)| + 1 < 11 * |seg.asns| + 2 + 1 + 1
  {
    JoinLength(seg.asns, Separator(seg.kind));
  }

  function CountAsns(p: Path): nat {
    if p == [] then 0 else |p[0].asns| + CountAsns(p[1..])
  }

  // The text with i numbers printed.
  function Partial(asns: seq<u32>, i: nat, separator: char): string
    requires i <= |asns|
  {
    Join(asns[..i], separator) + if 0 < i < |asns| then [separator] else ""
  }

  lemma PartialStep(asns: seq<u32>, i: nat, separator: char)
    requires i < |asns|
    ensures Partial(asns, i + 1, separator)
         == Partial(asns, i, separator) + Decimal(asns[i]) + if i < |asns| - 1 then [separator] else ""
  {
    assert asns[..i + 1] == asns[..i] + [asns[i]];
    JoinAppend(asns[..i], asns[i], separator);
  }

  lemma {:induction false} PartialFits(asns: seq<u32>, k: nat, separator: char)
    requires k <= |asns|
    ensures |Partial(asns, k, separator)| <= |Join(asns, separator)|
  {
    if k == 0 {
    } else {
      assert asns[..k][1..] == asns[1..][..k - 1];
      PartialFits(asns[1..], k - 1, separator);
    }
  }

  // The numbers of a segment with their separators, bar the last one.
  method PutAsns(buf: array<char>, start: nat, asns: seq<u32>, separator: char) returns (len: nat)
    requires start + |Join(asns, separator)| < buf.Length
    modifies buf
    ensures len == start + |Join(asns, separator)| && buf[..len] == old(buf[..start]) + Join(asns, separator)
  {
    len := start;
    ghost var was := buf[..start];
    assert was + Partial(asns, 0, separator) == was;
    for i := 0 to |asns|
      invariant len == start + |Partial(asns, i, separator)| < buf.Length
      invariant buf[..len] == was + Partial(asns, i, separator)
    {
      ghost var partial := Partial(asns, i, separator);
      PartialStep(asns, i, separator);
      PartialFits(asns, i + 1, separator);
      len := Put(buf, len, Decimal(asns[i]));
      Associative(was, partial, Decimal(asns[i]));
      if i < |asns| - 1 {
        len := Put(buf, len, [separator]);
        Associative(was, partial + Decimal(asns[i]), [separator]);
      }
    }
    assert asns[..|asns|] == asns;
  }

  method PutSegment(buf: array<char>, start: nat, seg: Segment) returns (len: nat)
    requires start + |PrintSegment(seg)| < buf.Length
    modifies buf
    ensures len == start + |PrintSegment(seg)| && buf[..len] == old(buf[..start]) + PrintSegment(seg)
  {
    ghost var was := buf[..start];
    len := start;
    if seg.kind != AsSequence {
      len := Put(buf, len, Opening(seg.kind));
    }
    assert buf[..len] == was + Opening(seg.kind);
    len := PutAsns(buf, len, seg.asns, Separator(seg.kind));
    if seg.kind != AsSequence {
      len := Put(buf, len, Closing(seg.kind));
    }
    assert buf[..len] == was + Opening(seg.kind) + Join(seg.asns, Separator(seg.kind)) + Closing(seg.kind);
    assert buf[..len] == was + PrintSegment(seg);
  }

  lemma {:induction false} PrintAppend(p: Path, seg: Segment)
    ensures Print(p + [seg]) == Print(p) + (if p == [] then "" else " ") + PrintSegment(seg)
  {
    if p == [] {
      assert p + [seg] == [seg] && Print([seg][1..]) == "";
      assert PrintSegment(seg) + "" + "" == "" + "" + PrintSegment(seg);
    } else {
      var first := PrintSegment(p[0]);
      assert (p + [seg])[1..] == p[1..] + [seg];
      PrintAppend(p[1..], seg);
      if |p| == 1 {
        assert p[1..] == [] && "" + "" + PrintSegment(seg) == PrintSegment(seg);
        assert first + "" + "" == first;
      } else {
        Associative(first, " ", Print(p[1..]) + " " + PrintSegment(seg));
        Regrouped(first, " ", Print(p[1..]), " ", PrintSegment(seg));
        Associative(first, " ", Print(p[1..]));
      }
    }
  }

  // The text with k segments printed.
  function Printed(p: Path, k: nat): string
    requires k <= |p|
  {
    Print(p[..k]) + if 0 < k < |p| then " " else ""
  }

  lemma PrintedStep(p: Path, k: nat)
    requires k < |p|
    ensures Printed(p, k + 1) == Printed(p, k) + PrintSegment(p[k]) + if k < |p| - 1 then " " else ""
  {
    assert p[..k + 1] == p[..k] + [p[k]];
    PrintAppend(p[..k], p[k]);
  }

  const ASPATH_STR_DEFAULT_LEN := 32
  const ASN_STR_LEN := 11

  // A larger buffer with the same text.
  method Grow(buf: array<char>, len: nat, size: nat) returns (larger: array<char>)
    requires len <= buf.Length <= size
    ensures fresh(larger) && larger.Length == size && larger[..len] == buf[..len]
  {
    larger := new char[size](i requires 0 <= i < size reads buf => if i < buf.Length then buf[i] else '\0');
    assert larger[..len] == buf[..len];
  }

  // One segment and the space behind it.
  method PutNext(buf: array<char>, start: nat, p: Path, k: nat) returns (len: nat)
    requires k < |p| && start + |PrintSegment(p[k])| + 1 < buf.Length && buf[..start] == Printed(p, k)
    modifies buf
    ensures len < buf.Length && buf[..len] == Printed(p, k + 1)
  {
    PrintedStep(p, k);
    len := PutSegment(buf, start, p[k]);
    if k < |p| - 1 {
      len := Put(buf, len, " ");
    }
  }

  // aspath_make_str_count. Every piece is written with room for the terminating zero, so nothing is
  // ever truncated, and the length ends below the size of the buffer.
  method MakeStr(p: Path) returns (buf: array<char>, len: nat)
    ensures len < buf.Length && buf[..len] == Print(p) && buf[len] == '\0'
  {
    len := 0;
    if p == [] {
      buf := new char[1](_ => '\0');
      return;
    }
    var size := Max(CountAsns(p) * ASN_STR_LEN + 2 + 1, ASPATH_STR_DEFAULT_LEN);
    buf := new char[size](_ => '\0');
    var k: nat := 0;
    assert buf[..0] == Printed(p, 0);
    while k < |p|
      invariant 0 <= k <= |p| && fresh(buf) && buf.Length == size
      invariant len < size && buf[..len] == Printed(p, k)
    {
      var needed := |p[k].asns| * ASN_STR_LEN + 2 + 1 + 1;
      if len + needed > size {
        size := len + needed;
        buf := Grow(buf, len, size);
      }
      SegmentLength(p[k]);
      len := PutNext(buf, len, p, k);
      k := k + 1;
    }
    assert len < size;
    assert p[..k] == p;
    buf[len] := '\0';
  }
}
