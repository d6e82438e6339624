// Interned AS paths and attributes and who counts as a reference to them
// (qsrx/bgpd/bgp_aspath.c:336-353, 616-634; qsrx/bgpd/bgp_attr.c:514-566, 648-718;
// qsrx/bgpd/bgp_advertise.c:103-370; qsrx/bgpd/bgp_packet.c:314-330). A hash table is a map from
// contents to the counter of the one object with these contents.
module Intern {
  import opened Util
  import opened AsPath
  import opened Counting

  // An attribute set; whatever of it is not the AS path is lumped together.
  datatype Attr = Attr(aspath: Option<Path>, rest: int)

  // An adjacency: a route node, and a table (a peer with an address family).
  datatype Adj = Adj(node: nat, table: nat)

  // What an adjacency waits to send: an update, an update without attributes, or a withdrawal.
  datatype Advert = Update(attr: Attr) | Bare | Withdraw

  // The adverts of one table with the same attributes, newest first.
  datatype Baa = Baa(refcnt: nat, adv: seq<Adj>)

  type BaaKey = (nat, Attr)

  // ---- AS paths and attributes

  function UsingPath(p: Path): Attr -> bool {
    (a: Attr) => a.aspath == Some(p)
  }

  // The counts of the interned attributes that use a path.
  ghost function Uses(attrs: map<Attr, nat>, p: Path): nat {
    Sum(Only(attrs, UsingPath(p)))
  }

  // Each interned path's count is its outside handles and the counts of the attributes using it.
  ghost predicate PathOk(aspaths: map<Path, nat>, attrs: map<Attr, nat>, handles: multiset<Path>, p: Path) {
    Refs(aspaths, p) == handles[p] + Uses(attrs, p)
  }

  ghost predicate PathsOk(aspaths: map<Path, nat>, attrs: map<Attr, nat>, handles: multiset<Path>) {
    Positive(aspaths) && forall p :: PathOk(aspaths, attrs, handles, p)
  }

  function PathsRaised(aspaths: map<Path, nat>, a: Attr): map<Path, nat> {
    match a.aspath case Some(p) => Raised(aspaths, p) case None => aspaths
  }

  predicate PathCounted(aspaths: map<Path, nat>, a: Attr) {
    a.aspath.Some? ==> Refs(aspaths, a.aspath.value) > 0
  }

  function PathsLowered(aspaths: map<Path, nat>, a: Attr): map<Path, nat>
    requires PathCounted(aspaths, a)
  {
    match a.aspath case Some(p) => Lowered(aspaths, p) case None => aspaths
  }

  lemma InternPathsOk(aspaths: map<Path, nat>, attrs: map<Attr, nat>, handles: multiset<Path>, a: Attr)
    requires PathsOk(aspaths, attrs, handles)
    ensures PathsOk(PathsRaised(aspaths, a), Raised(attrs, a), handles)
  {
    forall p
      ensures PathOk(PathsRaised(aspaths, a), Raised(attrs, a), handles, p)
    {
      assert PathOk(aspaths, attrs, handles, p);
      SumRaised(attrs, a, UsingPath(p));
    }
  }

  // An attribute in the table keeps its path in the other table.
  lemma UsedPathCounted(aspaths: map<Path, nat>, attrs: map<Attr, nat>, handles: multiset<Path>, a: Attr)
    requires PathsOk(aspaths, attrs, handles) && Refs(attrs, a) > 0
    ensures PathCounted(aspaths, a)
  {
    if a.aspath.Some? {
      assert PathOk(aspaths, attrs, handles, a.aspath.value);
      SumLowered(attrs, a, UsingPath(a.aspath.value));
    }
  }

  lemma UninternPathsOk(aspaths: map<Path, nat>, attrs: map<Attr, nat>, handles: multiset<Path>, a: Attr)
    requires PathsOk(aspaths, attrs, handles) && Refs(attrs, a) > 0
    ensures PathCounted(aspaths, a) && PathsOk(PathsLowered(aspaths, a), Lowered(attrs, a), handles)
  {
    UsedPathCounted(aspaths, attrs, handles, a);
    forall p
      ensures PathOk(PathsLowered(aspaths, a), Lowered(attrs, a), handles, p)
    {
      assert PathOk(aspaths, attrs, handles, p);
      SumLowered(attrs, a, UsingPath(p));
    }
  }

  lemma HoldPathOk(aspaths: map<Path, nat>, attrs: map<Attr, nat>, handles: multiset<Path>, p: Path)
    requires PathsOk(aspaths, attrs, handles)
    ensures PathsOk(Raised(aspaths, p), attrs, handles + multiset{p})
  {
    forall q
      ensures PathOk(Raised(aspaths, p), attrs, handles + multiset{p}, q)
    {
      assert PathOk(aspaths, attrs, handles, q);
    }
  }

  lemma ReleasePathOk(aspaths: map<Path, nat>, attrs: map<Attr, nat>, handles: multiset<Path>, p: Path)
    requires PathsOk(aspaths, attrs, handles) && p in handles
    ensures Refs(aspaths, p) > 0 && PathsOk(Lowered(aspaths, p), attrs, handles - multiset{p})
  {
    assert PathOk(aspaths, attrs, handles, p);
    forall q
      ensures PathOk(Lowered(aspaths, p), attrs, handles - multiset{p}, q)
    {
      assert PathOk(aspaths, attrs, handles, q);
    }
  }

  // ---- advertisements

  function OfAttr(a: Attr): BaaKey -> bool {
    (key: BaaKey) => key.1 == a
  }

  function Counts(baas: map<BaaKey, Baa>): map<BaaKey, nat> {
    map key | key in baas :: baas[key].refcnt
  }

  // The counts of the advertisement attributes that use an attribute.
  ghost function Advertised(baas: map<BaaKey, Baa>, a: Attr): nat {
    Sum(Only(Counts(baas), OfAttr(a)))
  }

  predicate Waits(queued: map<Adj, Advert>, k: Adj, key: BaaKey) {
    k in queued && queued[k] == Update(key.1) && k.table == key.0
  }

  ghost predicate NoRepeats(s: seq<Adj>) {
    forall i, j :: 0 <= i < j < |s| ==> s[i] != s[j]
  }

  // One advertisement attribute: its count is the length of its list, which holds the adverts waiting.
  ghost predicate BaaOk(baas: map<BaaKey, Baa>, queued: map<Adj, Advert>, key: BaaKey)
    requires key in baas
  {
    && baas[key].refcnt == |baas[key].adv| > 0 && NoRepeats(baas[key].adv)
    && forall k :: k in baas[key].adv <==> Waits(queued, k, key)
  }

  ghost predicate BaasOk(baas: map<BaaKey, Baa>, queued: map<Adj, Advert>) {
    && (forall key :: key in baas ==> BaaOk(baas, queued, key))
    && (forall k, key :: Waits(queued, k, key) ==> key in baas)
  }

  function BaaOf(baas: map<BaaKey, Baa>, key: BaaKey): Baa {
    if key in baas then baas[key] else Baa(0, [])
  }

  // bgp_advertise_intern and bgp_advertise_add.
  function Enlisted(baas: map<BaaKey, Baa>, key: BaaKey, k: Adj): map<BaaKey, Baa> {
    baas[key := Baa(BaaOf(baas, key).refcnt + 1, [k] + BaaOf(baas, key).adv)]
  }

  function Without(s: seq<Adj>, k: Adj): seq<Adj> {
    if s == [] then [] else if s[0] == k then s[1..] else [s[0]] + Without(s[1..], k)
  }

  // bgp_advertise_delete and bgp_advertise_unintern.
  function Struck(baas: map<BaaKey, Baa>, key: BaaKey, k: Adj): map<BaaKey, Baa>
    requires key in baas && baas[key].refcnt > 0
  {
    if baas[key].refcnt == 1 then baas - {key}
    else baas[key := Baa(baas[key].refcnt - 1, Without(baas[key].adv, k))]
  }

  lemma {:induction false} WithoutOne(s: seq<Adj>, k: Adj)
    requires k in s && NoRepeats(s)
    ensures |Without(s, k)| == |s| - 1 && NoRepeats(Without(s, k))
    ensures forall j :: j in Without(s, k) <==> j in s && j != k
  {
    assert s == [s[0]] + s[1..];
    if s[0] == k {
    } else {
      WithoutOne(s[1..], k);
      forall j | 0 <= j < |Without(s[1..], k)|
        ensures Without(s[1..], k)[j] != s[0]
      {
        assert Without(s[1..], k)[j] in s[1..];
      }
    }
  }

  lemma EnlistedOk(baas: map<BaaKey, Baa>, queued: map<Adj, Advert>, a: Attr, k: Adj)
    requires BaasOk(baas, queued) && k !in queued
    ensures BaasOk(Enlisted(baas, (k.table, a), k), queued[k := Update(a)])
  {
    var key := (k.table, a);
    var baas', queued' := Enlisted(baas, key, k), queued[k := Update(a)];
    assert !Waits(queued, k, key);
    forall key' | key' in baas'
      ensures BaaOk(baas', queued', key')
    {
      forall j
        ensures j in baas'[key'].adv <==> Waits(queued', j, key')
      {
        assert key' in baas ==> (j in baas[key'].adv <==> Waits(queued, j, key'));
        assert key' !in baas ==> !Waits(queued, j, key');
      }
    }
    forall j, key' | Waits(queued', j, key')
      ensures key' in baas'
    {
      assert j != k ==> Waits(queued, j, key');
    }
  }

  lemma StruckOk(baas: map<BaaKey, Baa>, queued: map<Adj, Advert>, k: Adj)
    requires BaasOk(baas, queued) && k in queued && queued[k].Update?
    ensures var key := (k.table, queued[k].attr);
            key in baas && baas[key].refcnt > 0 && k in baas[key].adv && BaasOk(Struck(baas, key, k), queued - {k})
  {
    var key := (k.table, queued[k].attr);
    assert Waits(queued, k, key);
    WithoutOne(baas[key].adv, k);
    var baas', queued' := Struck(baas, key, k), queued - {k};
    forall key' | key' in baas'
      ensures BaaOk(baas', queued', key')
    {
      forall j
        ensures j in baas'[key'].adv <==> Waits(queued', j, key')
      {
        assert j in baas[key'].adv <==> Waits(queued, j, key');
      }
    }
    forall j, key' | Waits(queued', j, key')
      ensures key' in baas'
    {
      assert Waits(queued, j, key');
      assert key' == key ==> j in Without(baas[key].adv, k);
    }
  }

  // Once an advert is struck off, the head of its list waits still, or no advert of the list does.
  lemma NextWaits(baas: map<BaaKey, Baa>, queued: map<Adj, Advert>, k: Adj)
    requires BaasOk(baas, queued) && k in queued && queued[k].Update?
    ensures var key := (k.table, queued[k].attr);
            && key in baas && |Without(baas[key].adv, k)| == baas[key].refcnt - 1
            && (baas[key].refcnt > 1 ==> Waits(queued - {k}, Without(baas[key].adv, k)[0], key))
            && (baas[key].refcnt == 1 ==> forall j :: !Waits(queued - {k}, j, key))
  {
    var key := (k.table, queued[k].attr);
    StruckOk(baas, queued, k);
    WithoutOne(baas[key].adv, k);
    if baas[key].refcnt > 1 {
      assert BaaOk(Struck(baas, key, k), queued - {k}, key);
      assert Without(baas[key].adv, k)[0] in Struck(baas, key, k)[key].adv;
    }
  }

  // The other adverts do not appear in any list.
  lemma OtherKeeps(baas: map<BaaKey, Baa>, queued: map<Adj, Advert>, queued': map<Adj, Advert>)
    requires BaasOk(baas, queued) && forall j, key :: Waits(queued', j, key) == Waits(queued, j, key)
    ensures BaasOk(baas, queued')
  {
    forall key | key in baas
      ensures BaaOk(baas, queued', key)
    {
      assert BaaOk(baas, queued, key);
    }
    forall j, key | Waits(queued', j, key)
      ensures key in baas
    {
      assert Waits(queued, j, key);
    }
  }

  lemma EnlistedCounts(baas: map<BaaKey, Baa>, key: BaaKey, k: Adj, a: Attr)
    ensures Advertised(Enlisted(baas, key, k), a) == Advertised(baas, a) + if key.1 == a then 1 else 0
  {
    assert Counts(Enlisted(baas, key, k)) == Raised(Counts(baas), key);
    SumRaised(Counts(baas), key, OfAttr(a));
  }

  lemma StruckCounts(baas: map<BaaKey, Baa>, key: BaaKey, k: Adj, a: Attr)
    requires key in baas && baas[key].refcnt > 0
    ensures Advertised(baas, a) == Advertised(Struck(baas, key, k), a) + if key.1 == a then 1 else 0
  {
    assert Counts(Struck(baas, key, k)) == Lowered(Counts(baas), key);
    SumLowered(Counts(baas), key, OfAttr(a));
  }

  // ---- attributes and their holders

  // Each interned attribute's count is its outside handles, the adjacencies in and out holding it,
  // and the counts of the advertisement attributes using it.
  ghost predicate AttrOk(attrs: map<Attr, nat>, handles: multiset<Attr>, adjIn: map<Adj, Attr>, sent: map<Adj, Attr>,
                         baas: map<BaaKey, Baa>, a: Attr) {
    Refs(attrs, a) == handles[a] + |Holders(adjIn, a)| + |Holders(sent, a)| + Advertised(baas, a)
  }

  ghost predicate AttrsOk(attrs: map<Attr, nat>, handles: multiset<Attr>, adjIn: map<Adj, Attr>, sent: map<Adj, Attr>,
                          baas: map<BaaKey, Baa>) {
    Positive(attrs) && forall a :: AttrOk(attrs, handles, adjIn, sent, baas, a)
  }

  lemma HoldOk(attrs: map<Attr, nat>, handles: multiset<Attr>, adjIn: map<Adj, Attr>, sent: map<Adj, Attr>,
               baas: map<BaaKey, Baa>, a: Attr)
    requires AttrsOk(attrs, handles, adjIn, sent, baas)
    ensures AttrsOk(Raised(attrs, a), handles + multiset{a}, adjIn, sent, baas)
  {
    forall w
      ensures AttrOk(Raised(attrs, a), handles + multiset{a}, adjIn, sent, baas, w)
    {
      assert AttrOk(attrs, handles, adjIn, sent, baas, w);
    }
  }

  lemma ReleaseOk(attrs: map<Attr, nat>, handles: multiset<Attr>, adjIn: map<Adj, Attr>, sent: map<Adj, Attr>,
                  baas: map<BaaKey, Baa>, a: Attr)
    requires AttrsOk(attrs, handles, adjIn, sent, baas) && a in handles
    ensures Refs(attrs, a) > 0 && AttrsOk(Lowered(attrs, a), handles - multiset{a}, adjIn, sent, baas)
  {
    assert AttrOk(attrs, handles, adjIn, sent, baas, a);
    forall w
      ensures AttrOk(Lowered(attrs, a), handles - multiset{a}, adjIn, sent, baas, w)
    {
      assert AttrOk(attrs, handles, adjIn, sent, baas, w);
    }
  }

  lemma InAddOk(attrs: map<Attr, nat>, handles: multiset<Attr>, adjIn: map<Adj, Attr>, sent: map<Adj, Attr>,
                baas: map<BaaKey, Baa>, k: Adj, a: Attr)
    requires AttrsOk(attrs, handles, adjIn, sent, baas) && k !in adjIn
    ensures AttrsOk(Raised(attrs, a), handles, adjIn[k := a], sent, baas)
  {
    var more := adjIn[k := a];
    forall w
      ensures AttrOk(Raised(attrs, a), handles, more, sent, baas, w)
    {
      assert AttrOk(attrs, handles, adjIn, sent, baas, w);
      HoldersPut(adjIn, k, a, w);
    }
  }

  lemma InDropOk(attrs: map<Attr, nat>, handles: multiset<Attr>, adjIn: map<Adj, Attr>, sent: map<Adj, Attr>,
                 baas: map<BaaKey, Baa>, k: Adj)
    requires AttrsOk(attrs, handles, adjIn, sent, baas) && k in adjIn
    ensures Refs(attrs, adjIn[k]) > 0 && AttrsOk(Lowered(attrs, adjIn[k]), handles, adjIn - {k}, sent, baas)
  {
    var a, rest := adjIn[k], adjIn - {k};
    assert AttrOk(attrs, handles, adjIn, sent, baas, a);
    HoldersDrop(adjIn, k, a);
    forall w
      ensures AttrOk(Lowered(attrs, a), handles, rest, sent, baas, w)
    {
      assert AttrOk(attrs, handles, adjIn, sent, baas, w);
      HoldersDrop(adjIn, k, w);
    }
  }

  lemma SentAddOk(attrs: map<Attr, nat>, handles: multiset<Attr>, adjIn: map<Adj, Attr>, sent: map<Adj, Attr>,
                  baas: map<BaaKey, Baa>, k: Adj, a: Attr)
    requires AttrsOk(attrs, handles, adjIn, sent, baas) && k !in sent
    ensures AttrsOk(Raised(attrs, a), handles, adjIn, sent[k := a], baas)
  {
    var more := sent[k := a];
    forall w
      ensures AttrOk(Raised(attrs, a), handles, adjIn, more, baas, w)
    {
      assert AttrOk(attrs, handles, adjIn, sent, baas, w);
      HoldersPut(sent, k, a, w);
    }
  }

  lemma SentDropOk(attrs: map<Attr, nat>, handles: multiset<Attr>, adjIn: map<Adj, Attr>, sent: map<Adj, Attr>,
                   baas: map<BaaKey, Baa>, k: Adj)
    requires AttrsOk(attrs, handles, adjIn, sent, baas) && k in sent
    ensures Refs(attrs, sent[k]) > 0 && AttrsOk(Lowered(attrs, sent[k]), handles, adjIn, sent - {k}, baas)
  {
    var a, rest := sent[k], sent - {k};
    assert AttrOk(attrs, handles, adjIn, sent, baas, a);
    HoldersDrop(sent, k, a);
    forall w
      ensures AttrOk(Lowered(attrs, a), handles, adjIn, rest, baas, w)
    {
      assert AttrOk(attrs, handles, adjIn, sent, baas, w);
      HoldersDrop(sent, k, w);
    }
  }

  lemma EnlistOk(attrs: map<Attr, nat>, handles: multiset<Attr>, adjIn: map<Adj, Attr>, sent: map<Adj, Attr>,
                 baas: map<BaaKey, Baa>, key: BaaKey, k: Adj)
    requires AttrsOk(attrs, handles, adjIn, sent, baas)
    ensures AttrsOk(Raised(attrs, key.1), handles, adjIn, sent, Enlisted(baas, key, k))
  {
    forall w
      ensures AttrOk(Raised(attrs, key.1), handles, adjIn, sent, Enlisted(baas, key, k), w)
    {
      assert AttrOk(attrs, handles, adjIn, sent, baas, w);
      EnlistedCounts(baas, key, k, w);
    }
  }

  lemma StrikeOk(attrs: map<Attr, nat>, handles: multiset<Attr>, adjIn: map<Adj, Attr>, sent: map<Adj, Attr>,
                 baas: map<BaaKey, Baa>, key: BaaKey, k: Adj)
    requires AttrsOk(attrs, handles, adjIn, sent, baas) && key in baas && baas[key].refcnt > 0
    ensures Refs(attrs, key.1) > 0 && AttrsOk(Lowered(attrs, key.1), handles, adjIn, sent, Struck(baas, key, k))
  {
    assert AttrOk(attrs, handles, adjIn, sent, baas, key.1);
    StruckCounts(baas, key, k, key.1);
    forall w
      ensures AttrOk(Lowered(attrs, key.1), handles, adjIn, sent, Struck(baas, key, k), w)
    {
      assert AttrOk(attrs, handles, adjIn, sent, baas, w);
      StruckCounts(baas, key, k, w);
    }
  }

  // ---- the tables

  class Tables {
    var aspaths: map<Path, nat>
    var attrs: map<Attr, nat>
    var baas: map<BaaKey, Baa>
    // adj->attr of the adjacencies in, and adj->attr and adj->adv of the adjacencies out
    var adjIn: map<Adj, Attr>
    var sent: map<Adj, Attr>
    var queued: map<Adj, Advert>

    // references held elsewhere: by parsed messages, routes, route maps
    ghost var pathHandles: multiset<Path>
    ghost var attrHandles: multiset<Attr>

    ghost predicate Valid()
      reads this
    {
      && PathsOk(aspaths, attrs, pathHandles)
      && AttrsOk(attrs, attrHandles, adjIn, sent, baas)
      && BaasOk(baas, queued)
    }

    constructor ()
      ensures Valid()
      ensures pathHandles == multiset{} && attrHandles == multiset{}
      ensures adjIn == map[] && sent == map[] && queued == map[]
    {
      aspaths, attrs, baas, adjIn, sent, queued := map[], map[], map[], map[], map[], map[];
      pathHandles, attrHandles := multiset{}, multiset{};
      new;
      forall p
        ensures PathOk(aspaths, attrs, pathHandles, p)
      {
        assert Only(attrs, UsingPath(p)) == map[];
      }
      forall a
        ensures AttrOk(attrs, attrHandles, adjIn, sent, baas, a)
      {
        assert Only(Counts(baas), OfAttr(a)) == map[];
        assert Holders(adjIn, a) == {} && Holders(sent, a) == {};
      }
    }

    // ---- counters

    // hash_get and the increment: aspath_intern, or the increment alone for an interned path.
    method InternPath(p: Path)
      modifies `aspaths
      ensures aspaths == Raised(old(aspaths), p)
    {
      if p !in aspaths {
        aspaths := aspaths[p := 0];
      }
      aspaths := aspaths[p := aspaths[p] + 1];
    }

    // aspath_unintern.
    method UninternPath(p: Path)
      requires Refs(aspaths, p) > 0
      modifies `aspaths
      ensures aspaths == Lowered(old(aspaths), p)
    {
      var refcnt := aspaths[p] - 1;
      aspaths := aspaths[p := refcnt];
      if refcnt == 0 {
        assert p in aspaths;
        aspaths := aspaths - {p};
      }
    }

    // bgp_attr_intern.
    method InternAttr(a: Attr)
      modifies `aspaths, `attrs
      ensures aspaths == PathsRaised(old(aspaths), a) && attrs == Raised(old(attrs), a)
    {
      if a.aspath.Some? {
        InternPath(a.aspath.value);
      }
      if a !in attrs {
        attrs := attrs[a := 0];
      }
      attrs := attrs[a := attrs[a] + 1];
    }

    // bgp_attr_unintern: the attribute is freed with its last reference, its path is released each time.
    method UninternAttr(a: Attr)
      requires Refs(attrs, a) > 0 && PathCounted(aspaths, a)
      modifies `aspaths, `attrs
      ensures aspaths == PathsLowered(old(aspaths), a) && attrs == Lowered(old(attrs), a)
    {
      var refcnt := attrs[a] - 1;
      attrs := attrs[a := refcnt];
      if refcnt == 0 {
        attrs := attrs - {a};
      }
      if a.aspath.Some? {
        UninternPath(a.aspath.value);
      }
    }

    // ---- outside references

    method HoldPath(p: Path)
      requires Valid()
      modifies `aspaths, `pathHandles
      ensures Valid() && pathHandles == old(pathHandles) + multiset{p}
    {
      HoldPathOk(aspaths, attrs, pathHandles, p);
      InternPath(p);
      pathHandles := pathHandles + multiset{p};
    }

    // Also bgp_attr_unintern_sub, for the attributes of a parsed message.
    method ReleasePath(p: Path)
      requires Valid() && p in pathHandles
      modifies `aspaths, `pathHandles
      ensures Valid() && pathHandles == old(pathHandles) - multiset{p}
    {
      ReleasePathOk(aspaths, attrs, pathHandles, p);
      UninternPath(p);
      pathHandles := pathHandles - multiset{p};
    }

    method HoldAttr(a: Attr)
      requires Valid()
      modifies `aspaths, `attrs, `attrHandles
      ensures Valid() && attrHandles == old(attrHandles) + multiset{a}
    {
      InternPathsOk(aspaths, attrs, pathHandles, a);
      HoldOk(attrs, attrHandles, adjIn, sent, baas, a);
      InternAttr(a);
      attrHandles := attrHandles + multiset{a};
    }

    method ReleaseAttr(a: Attr)
      requires Valid() && a in attrHandles
      modifies `aspaths, `attrs, `attrHandles
      ensures Valid() && attrHandles == old(attrHandles) - multiset{a}
    {
      ReleaseOk(attrs, attrHandles, adjIn, sent, baas, a);
      UninternPathsOk(aspaths, attrs, pathHandles, a);
      UninternAttr(a);
      attrHandles := attrHandles - multiset{a};
    }

    // ---- adjacencies in

    method AdjInDrop(k: Adj)
      requires Valid() && k in adjIn
      modifies `aspaths, `attrs, `adjIn
      ensures Valid() && adjIn == old(adjIn) - {k}
    {
      InDropOk(attrs, attrHandles, adjIn, sent, baas, k);
      UninternPathsOk(aspaths, attrs, pathHandles, adjIn[k]);
      UninternAttr(adjIn[k]);
      adjIn := adjIn - {k};
    }

    method AdjInPut(k: Adj, a: Attr)
      requires Valid() && k !in adjIn
      modifies `aspaths, `attrs, `adjIn
      ensures Valid() && adjIn == old(adjIn)[k := a]
    {
      InAddOk(attrs, attrHandles, adjIn, sent, baas, k, a);
      InternPathsOk(aspaths, attrs, pathHandles, a);
      InternAttr(a);
      adjIn := adjIn[k := a];
    }

    // bgp_adj_in_set; same is set when the caller passes the interned attributes already stored.
    method AdjInSet(k: Adj, a: Attr, same: bool)
      requires Valid()
      modifies `aspaths, `attrs, `adjIn
      ensures Valid() && adjIn == old(adjIn)[k := a]
    {
      if k in adjIn {
        if adjIn[k] == a && same {
          return;
        }
        AdjInDrop(k);
      }
      AdjInPut(k, a);
    }

    // bgp_adj_in_unset.
    method AdjInUnset(k: Adj)
      requires Valid()
      modifies `aspaths, `attrs, `adjIn
      ensures Valid() && adjIn == old(adjIn) - {k}
    {
      if k in adjIn {
        AdjInDrop(k);
      }
    }

    // ---- adjacencies out

    // The advert leaves its list; the advertisement attributes go with the last one.
    method Strike(key: BaaKey, k: Adj) returns (next: Option<Adj>)
      requires key in baas && baas[key].refcnt > 0
      modifies `baas
      ensures baas == Struck(old(baas), key, k)
      ensures var adv := Without(old(baas)[key].adv, k); next == if adv == [] then None else Some(adv[0])
    {
      var adv := Without(baas[key].adv, k);
      next := if adv != [] then Some(adv[0]) else None;
      var refcnt := baas[key].refcnt - 1;
      if refcnt > 0 {
        baas := baas[key := Baa(refcnt, adv)];
      } else {
        baas := baas - {key};
      }
    }

    // bgp_advertise_delete and bgp_advertise_unintern for an update; the next one on the list.
    method CleanUpdate(k: Adj, a: Attr) returns (next: Option<Adj>)
      requires Valid() && k in queued && queued[k] == Update(a)
      modifies `aspaths, `attrs, `baas, `queued
      ensures Valid() && queued == old(queued) - {k}
      ensures next.Some? ==> Waits(queued, next.value, (k.table, a))
      ensures next.None? ==> forall j :: !Waits(queued, j, (k.table, a))
    {
      var key := (k.table, a);
      StruckOk(baas, queued, k);
      NextWaits(baas, queued, k);
      StrikeOk(attrs, attrHandles, adjIn, sent, baas, key, k);
      UninternPathsOk(aspaths, attrs, pathHandles, a);
      next := StoreStruck(key, k, a);
    }

    method StoreStruck(key: BaaKey, k: Adj, a: Attr) returns (next: Option<Adj>)
      requires key in baas && baas[key].refcnt > 0 && Refs(attrs, a) > 0 && PathCounted(aspaths, a)
      modifies `aspaths, `attrs, `baas, `queued
      ensures aspaths == PathsLowered(old(aspaths), a) && attrs == Lowered(old(attrs), a)
      ensures baas == Struck(old(baas), key, k) && queued == old(queued) - {k}
      ensures var adv := Without(old(baas)[key].adv, k); next == if adv == [] then None else Some(adv[0])
    {
      next := Strike(key, k);
      UninternAttr(a);
      queued := queued - {k};
    }

    // bgp_advertise_clean: the advert is taken off its list; the next one with the same attributes is
    // returned.
    method Clean(k: Adj) returns (next: Option<Adj>)
      requires Valid() && k in queued
      modifies `aspaths, `attrs, `baas, `queued
      ensures Valid() && queued == old(queued) - {k}
      ensures next.Some? ==> old(queued)[k].Update? && Waits(queued, next.value, (k.table, old(queued)[k].attr))
      ensures next.None? && old(queued)[k].Update? ==> forall j :: !Waits(queued, j, (k.table, old(queued)[k].attr))
    {
      if queued[k].Update? {
        next := CleanUpdate(k, queued[k].attr);
      } else {
        next := None;
        OtherKeeps(baas, queued, queued - {k});
        queued := queued - {k};
      }
    }

    // An advert without attributes, or a withdrawal, is put up.
    method QueueOther(k: Adj, adv: Advert)
      requires Valid() && k !in queued && !adv.Update?
      modifies `queued
      ensures Valid() && queued == old(queued)[k := adv]
    {
      OtherKeeps(baas, queued, queued[k := adv]);
      queued := queued[k := adv];
    }

    // The hash lookup, the increment, and the advert at the head of the list.
    method Enlist(key: BaaKey, k: Adj)
      modifies `baas
      ensures baas == Enlisted(old(baas), key, k)
    {
      if key !in baas {
        baas := baas[key := Baa(0, [])];
      }
      baas := baas[key := Baa(baas[key].refcnt + 1, [k] + baas[key].adv)];
    }

    // bgp_advertise_intern and bgp_advertise_add.
    method QueueUpdate(k: Adj, a: Attr)
      requires Valid() && k !in queued
      modifies `aspaths, `attrs, `baas, `queued
      ensures Valid() && queued == old(queued)[k := Update(a)]
    {
      var key := (k.table, a);
      EnlistedOk(baas, queued, a, k);
      EnlistOk(attrs, attrHandles, adjIn, sent, baas, key, k);
      InternPathsOk(aspaths, attrs, pathHandles, a);
      StoreQueued(k, a);
    }

    method StoreQueued(k: Adj, a: Attr)
      modifies `aspaths, `attrs, `baas, `queued
      ensures aspaths == PathsRaised(old(aspaths), a) && attrs == Raised(old(attrs), a)
      ensures baas == Enlisted(old(baas), (k.table, a), k) && queued == old(queued)[k := Update(a)]
    {
      InternAttr(a);
      Enlist((k.table, a), k);
      queued := queued[k := Update(a)];
    }

    // bgp_adj_out_set.
    method AdjOutSet(k: Adj, attr: Option<Attr>)
      requires Valid()
      modifies `aspaths, `attrs, `baas, `queued
      ensures Valid()
      ensures queued == old(queued)[k := match attr case Some(a) => Update(a) case None => Bare]
    {
      if k in queued {
        var _ := Clean(k);
      }
      if attr.Some? {
        QueueUpdate(k, attr.value);
      } else {
        QueueOther(k, Bare);
      }
    }

    // bgp_adj_out_unset: a withdrawal if something has been sent.
    method AdjOutUnset(k: Adj)
      requires Valid()
      modifies `aspaths, `attrs, `baas, `queued
      ensures Valid()
      ensures queued == if k in sent then old(queued)[k := Withdraw] else old(queued) - {k}
    {
      if k in queued {
        var _ := Clean(k);
      }
      if k in sent {
        QueueOther(k, Withdraw);
      }
    }

    method SentDrop(k: Adj)
      requires Valid() && k in sent
      modifies `aspaths, `attrs, `sent
      ensures Valid() && sent == old(sent) - {k}
    {
      SentDropOk(attrs, attrHandles, adjIn, sent, baas, k);
      UninternPathsOk(aspaths, attrs, pathHandles, sent[k]);
      UninternAttr(sent[k]);
      sent := sent - {k};
    }

    method SentPut(k: Adj, a: Attr)
      requires Valid() && k !in sent
      modifies `aspaths, `attrs, `sent
      ensures Valid() && sent == old(sent)[k := a]
    {
      SentAddOk(attrs, attrHandles, adjIn, sent, baas, k, a);
      InternPathsOk(aspaths, attrs, pathHandles, a);
      InternAttr(a);
      sent := sent[k := a];
    }

    // bgp_adj_out_remove, also after a withdrawal has been sent.
    method AdjOutRemove(k: Adj)
      requires Valid()
      modifies `aspaths, `attrs, `baas, `sent, `queued
      ensures Valid() && sent == old(sent) - {k} && queued == old(queued) - {k}
    {
      if k in sent {
        SentDrop(k);
      }
      if k in queued {
        var _ := Clean(k);
      }
    }

    // The part of bgp_update_packet that turns an advert into sent attributes. The old attributes are
    // released before the new ones are taken up; these are kept by the advert meanwhile.
    method Synchronize(k: Adj) returns (next: Option<Adj>)
      requires Valid() && k in queued && queued[k].Update?
      modifies `aspaths, `attrs, `baas, `sent, `queued
      ensures Valid() && sent == old(sent)[k := old(queued)[k].attr] && queued == old(queued) - {k}
      ensures next.Some? ==> Waits(queued, next.value, (k.table, old(queued)[k].attr))
      ensures next.None? ==> forall j :: !Waits(queued, j, (k.table, old(queued)[k].attr))
    {
      var a := queued[k].attr;
      if k in sent {
        SentDrop(k);
      }
      QueuedKept(attrs, attrHandles, adjIn, sent, baas, queued, k);
      assert a in attrs;
      SentPut(k, a);
      next := Clean(k);
    }
  }

  // ---- nothing is freed while it is referenced

  // An advert waiting keeps its attributes.
  lemma QueuedKept(attrs: map<Attr, nat>, handles: multiset<Attr>, adjIn: map<Adj, Attr>, sent: map<Adj, Attr>,
                   baas: map<BaaKey, Baa>, queued: map<Adj, Advert>, k: Adj)
    requires AttrsOk(attrs, handles, adjIn, sent, baas) && BaasOk(baas, queued) && k in queued && queued[k].Update?
    ensures (k.table, queued[k].attr) in baas && queued[k].attr in attrs
  {
    StruckOk(baas, queued, k);
    StrikeOk(attrs, handles, adjIn, sent, baas, (k.table, queued[k].attr), k);
  }

  lemma SumZero<K(!new)>(m: map<K, nat>, k: K, p: K -> bool)
    requires k in m && m[k] > 0 && p(k)
    ensures Sum(Only(m, p)) > 0
  {
    SumDrop(Only(m, p), k);
  }

  lemma SumPositive<K(!new)>(m: map<K, nat>, p: K -> bool) returns (k: K)
    requires Sum(Only(m, p)) > 0
    ensures k in m && p(k)
  {
    k :| k in Only(m, p);
  }

  // A path is in the table exactly as long as someone holds it or an interned attribute uses it.
  lemma PathLives(t: Tables, p: Path)
    requires t.Valid()
    ensures p in t.aspaths <==> p in t.pathHandles || exists a :: a in t.attrs && a.aspath == Some(p)
  {
    assert PathOk(t.aspaths, t.attrs, t.pathHandles, p);
    if a :| a in t.attrs && a.aspath == Some(p) {
      SumZero(t.attrs, a, UsingPath(p));
    }
    if Uses(t.attrs, p) > 0 {
      var a := SumPositive(t.attrs, UsingPath(p));
    }
  }

  // Attributes are in the table exactly as long as someone holds them, an adjacency in or out has
  // them, or an advert with them waits.
  lemma AttrLives(t: Tables, a: Attr)
    requires t.Valid()
    ensures a in t.attrs <==> || a in t.attrHandles || Holders(t.adjIn, a) != {} || Holders(t.sent, a) != {}
                              || Holders(t.queued, Update(a)) != {}
  {
    assert AttrOk(t.attrs, t.attrHandles, t.adjIn, t.sent, t.baas, a);
    if Advertised(t.baas, a) > 0 {
      var key := SumPositive(Counts(t.baas), OfAttr(a));
      assert BaaOk(t.baas, t.queued, key);
      assert Waits(t.queued, t.baas[key].adv[0], key);
      assert t.baas[key].adv[0] in Holders(t.queued, Update(a));
    }
    if k :| k in Holders(t.queued, Update(a)) {
      QueuedKept(t.attrs, t.attrHandles, t.adjIn, t.sent, t.baas, t.queued, k);
    }
  }
}
