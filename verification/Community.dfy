// Community lists: sorted sets of 32-bit values, and their text form
// (qsrx/bgpd/bgp_community.c:47-57, 124-293, 413-440, 485-620).
module Community {
  import opened Util
  import opened Text
  import opened SortedSet

  type Com = seq<u32>

  const INTERNET: u32 := 0
  const NO_EXPORT: u32 := 0xFFFF_FF01
  const NO_ADVERTISE: u32 := 0xFFFF_FF02
  const LOCAL_AS: u32 := 0xFFFF_FF03

  // ---- sets

  // community_include.
  method Include(com: Com, val: u32) returns (found: bool)
    ensures found <==> val in com
  {
    for i := 0 to |com|
      invariant val !in com[..i]
    {
      if com[i] == val {
        return true;
      }
      assert com[..i + 1] == com[..i] + [com[i]];
    }
    assert com[..|com|] == com;
    return false;
  }

  ghost predicate AllDifferent(com: Com) {
    forall i, j :: 0 <= i < j < |com| ==> com[i] != com[j]
  }

  lemma {:induction false} DifferentSorted(com: Com)
    requires AllDifferent(com)
    ensures Sort(com) == UniqSort(com)
  {
    SortSorts(com);
    forall x
      ensures x in Sort(com) <==> x in com
    {
      assert x in com <==> x in multiset(com);
      assert x in Sort(com) <==> x in multiset(Sort(com));
    }
    forall i, j | 0 <= i < j < |Sort(com)|
      ensures Sort(com)[i] != Sort(com)[j]
    {
      if Sort(com)[i] == Sort(com)[j] {
        Twice(Sort(com), i, j);
        Once(com, Sort(com)[i]);
      }
    }
    StrictUnique(Sort(com), UniqSort(com));
  }

  lemma {:induction false} Twice(s: seq<u32>, i: nat, j: nat)
    requires i < j < |s| && s[i] == s[j]
    ensures multiset(s)[s[i]] >= 2
  {
    assert s == s[..i] + [s[i]] + s[i + 1..j] + [s[j]] + s[j + 1..];
  }

  lemma {:induction false} Once(s: seq<u32>, x: u32)
    requires AllDifferent(s)
    ensures multiset(s)[x] <= 1
  {
    if s == [] {
    } else {
      assert s == [s[0]] + s[1..];
      Once(s[1..], x);
      if s[0] == x {
        assert x !in s[1..];
        assert x !in multiset(s[1..]);
      }
    }
  }

  // community_uniq_sort.
  method UniqSortCom(com: Com) returns (sorted: Com)
    ensures sorted == UniqSort(com)
  {
    var kept: Com := [];
    for i := 0 to |com|
      invariant AllDifferent(kept) && SameElements(kept, com[..i])
    {
      assert com[..i + 1] == com[..i] + [com[i]];
      var found := Include(kept, com[i]);
      if !found {
        kept := kept + [com[i]];
      }
    }
    assert com[..|com|] == com;
    DifferentSorted(kept);
    UniqSortDecides(kept, com);
    return Sort(kept);
  }

  // The one-pass comparison: the values of t are found in s in this order.
  function Covers(s: Com, t: Com): bool {
    if t == [] then true
    else if s == [] then false
    else if s[0] == t[0] then Covers(s[1..], t[1..])
    else Covers(s[1..], t)
  }

  // community_match, with null pointers.
  method Match(com1: Option<Com>, com2: Option<Com>) returns (r: bool)
    ensures r == match (com1, com2)
                 case (None, None) => true
                 case (Some(s), Some(t)) => Covers(s, t)
                 case _ => false
  {
    if com1.None? && com2.None? {
      return true;
    }
    if com1.None? || com2.None? {
      return false;
    }
    var s, t := com1.value, com2.value;
    if |s| < |t| {
      CoversLonger(s, t);
      return false;
    }
    var i, j := 0, 0;
    assert s[0..] == s && t[0..] == t;
    while i < |s| && j < |t|
      invariant 0 <= i <= |s| && 0 <= j <= |t|
      invariant Covers(s[i..], t[j..]) == Covers(s, t)
    {
      assert s[i..][1..] == s[i + 1..] && t[j..][1..] == t[j + 1..];
      if s[i] == t[j] {
        j := j + 1;
      }
      i := i + 1;
    }
    return j == |t|;
  }

  lemma {:induction false} CoversLonger(s: Com, t: Com)
    ensures Covers(s, t) ==> |t| <= |s|
  {
    if s == [] || t == [] {
    } else {
      CoversLonger(s[1..], if s[0] == t[0] then t[1..] else t);
    }
  }

  // On any lists a match means that every value is there.
  lemma {:induction false} CoversContains(s: Com, t: Com)
    requires Covers(s, t)
    ensures forall x :: x in t ==> x in s
  {
    if t == [] {
    } else {
      CoversContains(s[1..], if s[0] == t[0] then t[1..] else t);
      assert t == [t[0]] + t[1..];
    }
  }

  lemma {:induction false} SubsetCovered(s: Com, t: Com)
    requires Strict(s) && Strict(t) && forall x :: x in t ==> x in s
    ensures Covers(s, t)
  {
    if t == [] {
    } else {
      assert t[0] in s;
      assert s[0] <= t[0];
      var rest := if s[0] == t[0] then t[1..] else t;
      forall x | x in rest
        ensures x in s[1..]
      {
        assert x in t && x in s && x > s[0];
        assert s == [s[0]] + s[1..];
      }
      SubsetCovered(s[1..], rest);
    }
  }

  // On sorted sets it means exactly that.
  lemma CoversSubset(s: Com, t: Com)
    requires Strict(s) && Strict(t)
    ensures Covers(s, t) <==> forall x :: x in t ==> x in s
  {
    if Covers(s, t) {
      CoversContains(s, t);
    } else if forall x :: x in t ==> x in s {
      SubsetCovered(s, t);
    }
  }

  // Not so on lists in any other order.
  lemma OrderMatters()
    ensures !Covers([1, 2], [2, 1])
  {
    assert [1, 2][1..] == [2] && [2][1..] == [] && [2, 1][1..] == [1];
  }

  // ---- printing

  // A value as a word, or as two 16-bit numbers.
  function Word(val: u32): string {
    if val == INTERNET then "internet"
    else if val == NO_EXPORT then "no-export"
    else if val == NO_ADVERTISE then "no-advertise"
    else if val == LOCAL_AS then "local-AS"
    else Decimal(val / 0x1_0000) + [':'] + Decimal(val % 0x1_0000)
  }

  function Print(com: Com): string {
    if com == [] then "" else Word(com[0]) + (if |com| == 1 then "" else [' ']) + Print(com[1..])
  }

  // What is reckoned for a value, the space in front included.
  function Room(val: u32): nat {
    if val == INTERNET then |" internet"|
    else if val == NO_EXPORT then |" no-export"|
    else if val == NO_ADVERTISE then |" no-advertise"|
    else if val == LOCAL_AS then |" local-AS"|
    else |" 65536:65535"|
  }

  function RoomFor(com: Com): nat {
    if com == [] then 0 else Room(com[0]) + RoomFor(com[1..])
  }

  lemma WordFits(val: u32)
    ensures |Word(val)| < Room(val)
  {
    assert Power10(4) == 10000 && Power10(5) == 10 * Power10(4);
    DecimalLength(val / 0x1_0000, 5);
    DecimalLength(val % 0x1_0000, 5);
  }

  // The text and its final zero fit the room reckoned.
  lemma {:induction false} PrintFits(com: Com)
    requires com != []
    ensures |Print(com)| < RoomFor(com)
  {
    WordFits(com[0]);
    if |com| <= 1 {
    } else {
      PrintFits(com[1..]);
    }
  }

  // ---- reading

  // End leaves the token as it was; Bad is an unknown token; both end the reading.
  datatype Next = End | Bad | Value(val: u32, rest: string)

  function SkipSpace(s: string): (t: string)
    ensures |t| <= |s| && (t == [] || !IsSpace(t[0]))
  {
    if s != [] && IsSpace(s[0]) then SkipSpace(s[1..]) else s
  }

  predicate IsAlpha(c: char) {
    'a' <= c <= 'z' || 'A' <= c <= 'Z'
  }

  predicate StartsWith(s: string, word: string) {
    |word| <= |s| && s[..|word|] == word
  }

  function ReadWord(s: string): Next {
    if StartsWith(s, "internet") then Value(INTERNET, s[|"internet"|..])
    else if StartsWith(s, "no-export") then Value(NO_EXPORT, s[|"no-export"|..])
    else if StartsWith(s, "no-advertise") then Value(NO_ADVERTISE, s[|"no-advertise"|..])
    else if StartsWith(s, "local-AS") then Value(LOCAL_AS, s[|"local-AS"|..])
    else Bad
  }

  // The loop over digits and one colon, in 32-bit arithmetic.
  function ReadPair(s: string, high: u32, low: u32, separator: bool, digit: bool): (r: Next)
    ensures r.Value? ==> |r.rest| <= |s|
  {
    if s == [] || !(IsDigit(s[0]) || s[0] == ':') then
      if digit then Value((high + low) % 0x1_0000_0000, s) else Bad
    else if s[0] == ':' then
      if separator then Bad else ReadPair(s[1..], low * 0x1_0000 % 0x1_0000_0000, 0, true, false)
    else ReadPair(s[1..], high, (low * 10 + DigitValue(s[0])) % 0x1_0000_0000, separator, true)
  }

  // community_gettoken.
  function NextToken(s: string): (r: Next)
    ensures r.Value? ==> |r.rest| < |s|
  {
    var t := SkipSpace(s);
    if t == [] || t[0] == '\0' then End
    else if IsAlpha(t[0]) then ReadWord(t)
    else if IsDigit(t[0]) then ReadPair(t[1..], 0, DigitValue(t[0]), false, true)
    else Bad
  }

  // community_str2com from the middle of a text: at the end, the last value is added once more.
  function ReadFrom(s: string, com: Com, last: Option<u32>): Option<Com>
    decreases |s|
  {
    match NextToken(s)
    case End => if last.None? then None else Some(com + [last.value])
    case Bad => None
    case Value(val, rest) => ReadFrom(rest, com + [val], Some(val))
  }

  function Read(s: string): Option<Com> {
    match ReadFrom(s, [], None)
    case None => None
    case Some(com) => Some(UniqSort(com))
  }

  // ---- the round trip

  predicate Stops(rest: string) {
    rest == [] || !(IsDigit(rest[0]) || rest[0] == ':')
  }

  lemma LastPaired(n: u32, rest: string, high: u32, separator: bool, digit: bool)
    ensures ReadPair([Digit(n % 10)] + rest, high, n / 10, separator, digit) == ReadPair(rest, high, n, separator, true)
  {
    Recomposed(n);
    assert ([Digit(n % 10)] + rest)[1..] == rest;
  }

  lemma {:induction false} DecimalPaired(n: u32, rest: string, high: u32, separator: bool, digit: bool)
    ensures ReadPair(Decimal(n) + rest, high, 0, separator, digit) == ReadPair(rest, high, n, separator, true)
    decreases n
  {
    if n < 10 {
      LastPaired(n, rest, high, separator, digit);
    } else {
      var more := [Digit(n % 10)] + rest;
      assert Decimal(n) + rest == Decimal(n / 10) + more;
      DecimalPaired(n / 10, more, high, separator, digit);
      LastPaired(n, rest, high, separator, true);
    }
  }

  lemma ColonRead(s: string, high: u32, low: u32, digit: bool)
    ensures ReadPair([':'] + s, high, low, false, digit) == ReadPair(s, low * 0x1_0000 % 0x1_0000_0000, 0, true, false)
  {
    assert ([':'] + s)[1..] == s;
  }

  lemma Shifted(high: u16)
    ensures high * 0x1_0000 % 0x1_0000_0000 == high * 0x1_0000
  {
  }

  lemma HighRead(high: u16, rest: string)
    ensures ReadPair(Decimal(high) + ([':'] + rest), 0, 0, false, false)
         == ReadPair(rest, high * 0x1_0000, 0, true, false)
  {
    Shifted(high);
    DecimalPaired(high, [':'] + rest, 0, false, false);
    ColonRead(rest, 0, high, true);
  }

  lemma LowRead(low: u16, rest: string, high: u16)
    requires Stops(rest)
    ensures ReadPair(Decimal(low) + rest, high * 0x1_0000, 0, true, false) == Value(high * 0x1_0000 + low, rest)
  {
    DecimalPaired(low, rest, high * 0x1_0000, true, false);
    PairFits(high, low);
  }

  lemma PairFits(high: u16, low: u16)
    ensures (high * 0x1_0000 + low) % 0x1_0000_0000 == high * 0x1_0000 + low
  {
  }

  lemma PairRead(high: u16, low: u16, rest: string)
    requires Stops(rest)
    ensures ReadPair(Decimal(high) + ([':'] + (Decimal(low) + rest)), 0, 0, false, false)
         == Value(high * 0x1_0000 + low, rest)
  {
    HighRead(high, Decimal(low) + rest);
    LowRead(low, rest, high);
  }

  lemma Regrouped(a: string, b: string, c: string, d: string)
    ensures a + b + c + d == a + (b + (c + d))
  {
  }

  lemma NumbersRead(val: u32, rest: string)
    requires Stops(rest)
    ensures NextToken(Decimal(val / 0x1_0000) + [':'] + Decimal(val % 0x1_0000) + rest) == Value(val, rest)
  {
    var high, low := val / 0x1_0000, val % 0x1_0000;
    Regrouped(Decimal(high), [':'], Decimal(low), rest);
    var s := Decimal(high) + ([':'] + (Decimal(low) + rest));
    PairRead(high, low, rest);
    assert s[0] == Decimal(high)[0];
    assert SkipSpace(s) == s;
  }

  lemma NameRead(name: string, val: u32, rest: string)
    requires (name, val) in {("internet", INTERNET), ("no-export", NO_EXPORT), ("no-advertise", NO_ADVERTISE),
                             ("local-AS", LOCAL_AS)}
    ensures NextToken(name + rest) == Value(val, rest)
  {
    var s := name + rest;
    assert s[..|name|] == name && s[|name|..] == rest;
    assert s[0] == name[0] && s[3] == name[3];
    assert SkipSpace(s) == s;
  }

  lemma WordRead(val: u32, rest: string)
    requires Stops(rest)
    ensures NextToken(Word(val) + rest) == Value(val, rest)
  {
    if val == INTERNET || val == NO_EXPORT || val == NO_ADVERTISE || val == LOCAL_AS {
      NameRead(Word(val), val, rest);
    } else {
      NumbersRead(val, rest);
    }
  }

  lemma ValueRead(val: u32, rest: string, com: Com, last: Option<u32>)
    requires Stops(rest)
    ensures ReadFrom(Word(val) + rest, com, last) == ReadFrom(rest, com + [val], Some(val))
  {
    WordRead(val, rest);
  }

  lemma SpaceSkipped(s: string, com: Com, last: Option<u32>)
    ensures ReadFrom([' '] + s, com, last) == ReadFrom(s, com, last)
  {
    assert ([' '] + s)[1..] == s;
  }

  lemma FirstRead(com: Com, before: Com, last: Option<u32>)
    requires com != []
    ensures ReadFrom(Print(com), before, last) == ReadFrom(Print(com[1..]), before + [com[0]], Some(com[0]))
  {
    var gap := if |com| == 1 then "" else [' '];
    Associative(Word(com[0]), gap, Print(com[1..]));
    ValueRead(com[0], gap + Print(com[1..]), before, last);
    if |com| == 1 {
      assert "" + Print(com[1..]) == Print(com[1..]);
    } else {
      SpaceSkipped(Print(com[1..]), before + [com[0]], Some(com[0]));
    }
  }

  lemma {:induction false} PrintRead(com: Com, before: Com, last: Option<u32>)
    requires com != [] || last.Some?
    ensures ReadFrom(Print(com), before, last)
         == Some(before + com + [if com == [] then last.value else com[|com| - 1]])
    decreases |com|
  {
    if com == [] {
      assert before + com == before;
    } else {
      FirstRead(com, before, last);
      PrintRead(com[1..], before + [com[0]], Some(com[0]));
      assert before + [com[0]] + com[1..] == before + com;
    }
  }

  // Reading back what was printed gives the sorted set of the values, although the last of them is
  // added twice; an empty list does not come back.
  lemma TextRoundTrip(com: Com)
    ensures Read(Print(com)) == if com == [] then None else Some(UniqSort(com))
  {
    if com != [] {
      PrintRead(com, [], None);
      var read := [] + com + [com[|com| - 1]];
      UniqSortDecides(read, com);
    }
  }

  lemma TextRoundTripIff(com: Com)
    ensures Read(Print(com)) == Some(com) <==> com != [] && Strict(com)
  {
    TextRoundTrip(com);
    UniqSortDecides(com, com);
  }

  // ---- the printing loop and its buffer

  // Writing a piece in front of which there is room, the final zero included.
  method Put(buf: array<char>, len: nat, piece: string) returns (len': nat)
    requires len + |piece| < buf.Length
    modifies buf
    ensures len' == len + |piece| && buf[..len'] == old(buf[..len]) + piece
  {
    forall i | 0 <= i < |piece| {
      buf[len + i] := piece[i];
    }
    len' := len + |piece|;
    assert buf[..len'] == old(buf[..len]) + piece;
  }

  lemma Regrouped5(a: string, b: string, c: string, d: string, e: string)
    ensures a + b + (c + d + e) == a + b + c + d + e
  {
  }

  lemma {:induction false} PrintAppend(com: Com, val: u32)
    ensures Print(com + [val]) == Print(com) + (if com == [] then "" else [' ']) + Word(val)
  {
    if com == [] {
      assert com + [val] == [val] && [val][1..] == [];
      assert Word(val) + "" + "" == "" + "" + Word(val);
    } else {
      assert (com + [val])[1..] == com[1..] + [val];
      PrintAppend(com[1..], val);
      if |com| == 1 {
        assert com[1..] == [] && "" + "" + Word(val) == Word(val);
        assert Word(com[0]) + "" + "" == Word(com[0]);
      } else {
        Regrouped5(Word(com[0]), [' '], Print(com[1..]), [' '], Word(val));
      }
    }
  }

  lemma {:induction false} RoomConcat(com: Com, more: Com)
    ensures RoomFor(com + more) == RoomFor(com) + RoomFor(more)
  {
    if com == [] {
      assert com + more == more;
    } else {
      assert (com + more)[1..] == com[1..] + more;
      RoomConcat(com[1..], more);
    }
  }

  // The first loop of community_com2str.
  method Reckon(com: Com) returns (len: nat)
    ensures len == RoomFor(com)
  {
    len := 0;
    for i := 0 to |com|
      invariant len == RoomFor(com[..i])
    {
      assert com[..i + 1] == com[..i] + [com[i]];
      RoomConcat(com[..i], [com[i]]);
      assert [com[i]][1..] == [];
      len := len + Room(com[i]);
    }
    assert com[..|com|] == com;
  }

  lemma SplitHere(com: Com, k: nat)
    requires k <= |com|
    ensures com[..k] + com[k..] == com
  {
  }

  // One value more: the text so far, with the space in front of the next value, and the room left.
  lemma PartFits(com: Com, i: nat)
    requires i < |com|
    ensures Print(com[..i + 1]) == Print(com[..i]) + (if i == 0 then "" else [' ']) + Word(com[i])
    ensures |Print(com[..i + 1])| < RoomFor(com)
  {
    assert com[..i + 1] == com[..i] + [com[i]];
    PrintAppend(com[..i], com[i]);
    PrintFits(com[..i + 1]);
    SplitHere(com, i + 1);
    RoomConcat(com[..i + 1], com[i + 1..]);
  }

  // community_com2str: the text and its final zero stay within the length reckoned beforehand.
  method Com2Str(com: Com) returns (str: array<char>, pnt: nat)
    ensures pnt < str.Length == Max(RoomFor(com), 1) && str[..pnt] == Print(com) && str[pnt] == '\0'
  {
    pnt := 0;
    if |com| == 0 {
      str := new char[1](_ => '\0');
      return;
    }
    var size := Reckon(com);
    PartFits(com, 0);
    str := new char[size](_ => '\0');
    assert com[..0] == [] && str[..0] == Print([]);
    for i := 0 to |com|
      invariant fresh(str) && pnt < str.Length == RoomFor(com) && str[..pnt] == Print(com[..i])
    {
      PartFits(com, i);
      if i > 0 {
        pnt := Put(str, pnt, [' ']);
      }
      assert str[..pnt] == Print(com[..i]) + if i == 0 then "" else [' '];
      pnt := Put(str, pnt, Word(com[i]));
    }
    assert com[..|com|] == com;
    str[pnt] := '\0';
  }

  // ---- the reading loops

  // The loop over digits and one colon.
  method GetPair(s: string) returns (next: Next)
    requires s != [] && IsDigit(s[0])
    ensures next == ReadPair(s, 0, 0, false, false)
  {
    var p, separator, digit := 0, false, false;
    var high: u32, low: u32 := 0, 0;
    assert s[0..] == s;
    while p < |s| && (IsDigit(s[p]) || s[p] == ':')
      invariant 0 <= p <= |s|
      invariant ReadPair(s[p..], high, low, separator, digit) == ReadPair(s, 0, 0, false, false)
    {
      assert s[p..][1..] == s[p + 1..];
      if s[p] == ':' {
        if separator {
          return Bad;
        }
        separator, digit := true, false;
        high, low := low * 0x1_0000 % 0x1_0000_0000, 0;
      } else {
        digit := true;
        low := (low * 10 + DigitValue(s[p])) % 0x1_0000_0000;
      }
      p := p + 1;
    }
    if !digit {
      return Bad;
    }
    return Value((high + low) % 0x1_0000_0000, s[p..]);
  }

  // community_gettoken.
  method GetToken(buf: string) returns (next: Next)
    ensures next == NextToken(buf)
  {
    var p := 0;
    assert buf[0..] == buf;
    while p < |buf| && IsSpace(buf[p])
      invariant 0 <= p <= |buf| && SkipSpace(buf[p..]) == SkipSpace(buf)
    {
      assert buf[p..][1..] == buf[p + 1..];
      p := p + 1;
    }
    if p == |buf| || buf[p] == '\0' {
      return End;
    }
    if IsAlpha(buf[p]) {
      return ReadWord(buf[p..]);
    }
    if IsDigit(buf[p]) {
      next := GetPair(buf[p..]);
    } else {
      next := Bad;
    }
  }

  // community_str2com.
  method Str2Com(str: string) returns (sorted: Option<Com>)
    ensures sorted == Read(str)
  {
    var com: Com, last: Option<u32> := [], None;
    var s := str;
    while true
      invariant ReadFrom(s, com, last) == ReadFrom(str, [], None)
      decreases |s|
    {
      var next := GetToken(s);
      match next {
        case End =>
          if last.None? {
            return None;
          }
          com := com + [last.value];
          break;
        case Bad =>
          return None;
        case Value(val, rest) =>
          com, last, s := com + [val], Some(val), rest;
      }
    }
    var c := UniqSortCom(com);
    return Some(c);
  }
}
