// The order in which buffered updates are flushed, and what the flush makes of duplicates
// (qsrx/babeld/message.c:910-942, 963-1061).
module UpdateOrder {
  import opened Util
  import opened Prefix
  import opened Wire

  // A buffered update, with the router-id it will be sent under.
  datatype Entry = Entry(id: RouterId8, key: Key)

  predicate IdFromPrefix(e: Entry) {
    !IsV4(e.key) && e.key.plen == 128 && e.key.prefix[8..] == e.id
  }

  // compare_buffered_updates: by router-id, IPv6 before IPv4, first the prefix that tells the
  // router-id, then the longer prefix.
  function Compare(a: Entry, b: Entry): int {
    var rc := Memcmp(a.id, b.id);
    if rc != 0 then rc
    else if IsV4(a.key) && !IsV4(b.key) then 1
    else if !IsV4(a.key) && IsV4(b.key) then -1
    else if IdFromPrefix(a) && !IdFromPrefix(b) then -1
    else if !IdFromPrefix(a) && IdFromPrefix(b) then 1
    else if a.key.plen < b.key.plen then 1
    else if a.key.plen > b.key.plen then -1
    else Memcmp(a.key.prefix, b.key.prefix)
  }

  // A total order: ties are equal entries.
  lemma CompareTotal(a: Entry, b: Entry)
    ensures Compare(a, b) == 0 <==> a == b
    ensures Compare(a, b) < 0 <==> Compare(b, a) > 0
  {
    MemcmpAntisymmetric(a.id, b.id);
    MemcmpAntisymmetric(a.key.prefix, b.key.prefix);
  }

  lemma CompareTransitive(a: Entry, b: Entry, c: Entry)
    requires Compare(a, b) <= 0 && Compare(b, c) <= 0
    ensures Compare(a, c) <= 0
  {
    SameIdTransitive(a, b, c);
    MemcmpAntisymmetric(a.id, b.id);
    MemcmpAntisymmetric(b.id, c.id);
    MemcmpTransitive(a.id, b.id, c.id);
  }

  lemma SameIdTransitive(a: Entry, b: Entry, c: Entry)
    requires a.id == b.id == c.id ==> Compare(a, b) <= 0 && Compare(b, c) <= 0
    ensures a.id == b.id == c.id ==> Compare(a, c) <= 0
  {
    if a.id == b.id == c.id && Memcmp(a.key.prefix, b.key.prefix) <= 0 && Memcmp(b.key.prefix, c.key.prefix) <= 0 {
      MemcmpTransitive(a.key.prefix, b.key.prefix, c.key.prefix);
    }
  }

  // ---- sorting

  ghost predicate IsSorted(es: seq<Entry>) {
    forall i, j :: 0 <= i < j < |es| ==> Compare(es[i], es[j]) <= 0
  }

  function Insert(e: Entry, es: seq<Entry>): seq<Entry> {
    if es == [] || Compare(e, es[0]) <= 0 then [e] + es else [es[0]] + Insert(e, es[1..])
  }

  function Sort(es: seq<Entry>): seq<Entry> {
    if es == [] then [] else Insert(es[0], Sort(es[1..]))
  }

  lemma {:induction false} InsertKeeps(e: Entry, es: seq<Entry>)
    ensures multiset(Insert(e, es)) == multiset(es) + multiset{e}
  {
    if es == [] || Compare(e, es[0]) <= 0 {
    } else {
      InsertKeeps(e, es[1..]);
      assert es == [es[0]] + es[1..];
    }
  }

  lemma {:induction false} InsertSorted(e: Entry, es: seq<Entry>)
    requires IsSorted(es)
    ensures IsSorted(Insert(e, es))
  {
    if es == [] {
    } else if Compare(e, es[0]) <= 0 {
      forall j | 0 <= j < |es|
        ensures Compare(e, es[j]) <= 0
      {
        CompareTotal(es[0], es[0]);
        CompareTransitive(e, es[0], es[j]);
      }
    } else {
      InsertSorted(e, es[1..]);
      InsertKeeps(e, es[1..]);
      CompareTotal(e, es[0]);
      var rest := Insert(e, es[1..]);
      forall j | 0 <= j < |rest|
        ensures Compare(es[0], rest[j]) <= 0
      {
        assert rest[j] in multiset(rest);
        if rest[j] != e {
          assert rest[j] in es[1..];
        }
      }
    }
  }

  lemma {:induction false} SortSorts(es: seq<Entry>)
    ensures IsSorted(Sort(es)) && multiset(Sort(es)) == multiset(es)
  {
    if es == [] {
    } else {
      SortSorts(es[1..]);
      InsertSorted(es[0], Sort(es[1..]));
      InsertKeeps(es[0], Sort(es[1..]));
      HeadCounted(es);
    }
  }

  lemma HeadCounted(es: seq<Entry>)
    requires es != []
    ensures multiset(es) == multiset(es[1..]) + multiset{es[0]}
  {
    assert es == [es[0]] + es[1..];
  }

  // What the order is for: entries with one router-id stand together, among them IPv6 before IPv4, the prefix
  // that tells the router-id first, and longer prefixes before shorter ones.
  lemma SortedGroups(es: seq<Entry>, i: nat, j: nat, k: nat)
    requires IsSorted(es) && i < j < k < |es| && es[i].id == es[k].id
    ensures es[j].id == es[i].id
    ensures IsV4(es[i].key) ==> IsV4(es[j].key)
    ensures IdFromPrefix(es[j]) ==> IdFromPrefix(es[i])
    ensures IsV4(es[i].key) == IsV4(es[j].key) && IdFromPrefix(es[i]) == IdFromPrefix(es[j])
            ==> es[i].key.plen >= es[j].key.plen
  {
    var a, b := es[i], es[j];
    assert Compare(a, b) <= 0 && Compare(b, es[k]) <= 0;
    MemcmpAntisymmetric(a.id, b.id);
  }

  // Whatever way of sorting the C library takes, the outcome is the same.
  lemma {:induction false} SortUnique(es: seq<Entry>, ts: seq<Entry>)
    requires IsSorted(es) && IsSorted(ts) && multiset(es) == multiset(ts)
    ensures es == ts
    decreases |es|
  {
    assert |es| == |multiset(es)| == |multiset(ts)| == |ts|;
    if es == [] {
    } else {
      SameFirst(es, ts);
      WithoutFirst(es);
      WithoutFirst(ts);
      SortUnique(es[1..], ts[1..]);
    }
  }

  lemma SameFirst(es: seq<Entry>, ts: seq<Entry>)
    requires IsSorted(es) && IsSorted(ts) && multiset(es) == multiset(ts) && es != [] && ts != []
    ensures es[0] == ts[0]
  {
    assert es[0] in multiset(ts) && ts[0] in multiset(es);
    FirstSmallest(es, ts[0]);
    FirstSmallest(ts, es[0]);
    CompareTotal(es[0], ts[0]);
  }

  lemma WithoutFirst(es: seq<Entry>)
    requires es != []
    ensures es == [es[0]] + es[1..] && multiset(es[1..]) == multiset(es) - multiset{es[0]}
  {
    assert es == [es[0]] + es[1..];
  }

  lemma FirstSmallest(es: seq<Entry>, e: Entry)
    requires IsSorted(es) && e in es
    ensures Compare(es[0], e) <= 0
  {
    CompareTotal(e, e);
  }

  // ---- the walk over the sorted entries

  // What the flush finds for a destination: something to send, nothing to send because of split
  // horizon, or no route at all.
  datatype Found = Live | Suppressed | Gone

  // The destinations handed to really_send_update; only a Live one is remembered as the last sent.
  function Visits(es: seq<Entry>, found: Key -> Found, last: Option<Key>): seq<Key> {
    if es == [] then []
    else
      var key := es[0].key;
      if last == Some(key) then Visits(es[1..], found, last)
      else match found(key)
        case Live => [key] + Visits(es[1..], found, Some(key))
        case Suppressed => Visits(es[1..], found, last)
        case Gone => [key] + Visits(es[1..], found, last)
  }

  function Times(keys: seq<Key>, key: Key): nat {
    multiset(keys)[key]
  }

  function KeysOf(es: seq<Entry>): seq<Key> {
    seq(|es|, i requires 0 <= i < |es| => es[i].key)
  }

  lemma KeysHead(es: seq<Entry>)
    requires es != []
    ensures multiset(KeysOf(es)) == multiset{es[0].key} + multiset(KeysOf(es[1..]))
  {
    assert KeysOf(es) == [es[0].key] + KeysOf(es[1..]);
  }

  lemma {:induction false} InsertKeys(e: Entry, es: seq<Entry>)
    ensures multiset(KeysOf(Insert(e, es))) == multiset(KeysOf(es)) + multiset{e.key}
  {
    KeysHead(Insert(e, es));
    if es == [] || Compare(e, es[0]) <= 0 {
      assert Insert(e, es)[1..] == es;
    } else {
      assert Insert(e, es)[1..] == Insert(e, es[1..]);
      InsertKeys(e, es[1..]);
      KeysHead(es);
    }
  }

  lemma {:induction false} SortKeys(es: seq<Entry>)
    ensures multiset(KeysOf(Sort(es))) == multiset(KeysOf(es))
  {
    if es == [] {
    } else {
      SortKeys(es[1..]);
      InsertKeys(es[0], Sort(es[1..]));
      KeysHead(es);
    }
  }

  // Entries for one destination carry one router-id.
  ghost predicate IdByKey(es: seq<Entry>) {
    forall i, j :: 0 <= i < |es| && 0 <= j < |es| && es[i].key == es[j].key ==> es[i] == es[j]
  }

  // How often a destination that was queued so many times is handed to really_send_update: once,
  // but never when split horizon suppresses it, and each time when it has no route.
  function Expected(found: Found, queued: nat): nat {
    match found
    case Live => if queued > 0 then 1 else 0
    case Suppressed => 0
    case Gone => queued
  }

  // The entries for key follow each other; they also come first.
  ghost predicate Together(es: seq<Entry>, key: Key) {
    forall i, j, k :: 0 <= i < j < k < |es| && es[i].key == key && es[k].key == key ==> es[j].key == key
  }

  ghost predicate First(es: seq<Entry>, key: Key) {
    forall i, j :: 0 <= i < j < |es| && es[j].key == key ==> es[i].key == key
  }

  lemma SortedTogether(es: seq<Entry>, key: Key)
    requires IsSorted(es) && IdByKey(es)
    ensures Together(es, key)
  {
    forall i, j, k | 0 <= i < j < k < |es| && es[i].key == key && es[k].key == key
      ensures es[j].key == key
    {
      assert es[i] == es[k];
      assert Compare(es[i], es[j]) <= 0 && Compare(es[j], es[k]) <= 0;
      CompareTotal(es[i], es[j]);
    }
  }

  lemma TimesHead(es: seq<Entry>, key: Key)
    requires es != []
    ensures Times(KeysOf(es), key) == (if es[0].key == key then 1 else 0) + Times(KeysOf(es[1..]), key)
  {
    assert KeysOf(es) == [es[0].key] + KeysOf(es[1..]);
  }

  // Once key has been sent, the entries left for it are passed over.
  lemma {:induction false} VisitsAfter(es: seq<Entry>, found: Key -> Found, last: Option<Key>, key: Key)
    requires if last == Some(key) then First(es, key) else forall i :: 0 <= i < |es| ==> es[i].key != key
    ensures Times(Visits(es, found, last), key) == 0
    decreases |es|
  {
    if es == [] {
    } else {
      var k := es[0].key;
      if k != key {
        forall i | 0 <= i < |es|
          ensures es[i].key != key
        {
        }
      }
      VisitsAfter(es[1..], found, if last != Some(k) && found(k).Live? then Some(k) else last, key);
    }
  }

  lemma {:induction false} VisitsFrom(es: seq<Entry>, found: Key -> Found, last: Option<Key>, key: Key)
    requires Together(es, key) && last != Some(key)
    ensures Times(Visits(es, found, last), key) == Expected(found(key), Times(KeysOf(es), key))
    decreases |es|
  {
    if es == [] {
    } else {
      var k := es[0].key;
      TimesHead(es, key);
      if k == key && found(k).Live? {
        assert First(es[1..], key);
        VisitsAfter(es[1..], found, Some(k), key);
      } else {
        VisitsFrom(es[1..], found, if last != Some(k) && found(k).Live? then Some(k) else last, key);
      }
    }
  }

  // Each distinct live destination is sent exactly once per flush, however often it was queued.
  lemma VisitsCount(es: seq<Entry>, found: Key -> Found, key: Key)
    requires IsSorted(es) && IdByKey(es)
    ensures Times(Visits(es, found, None), key) == Expected(found(key), Times(KeysOf(es), key))
  {
    SortedTogether(es, key);
    VisitsFrom(es, found, None, key);
  }
}
