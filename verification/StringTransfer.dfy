/**
  Moving string maps and multimaps between the C API containers and the C++
  ones. CMap and CMultimap follow the library's own implementations (an index
  vector in append order); StdMap and StdMultimap keep what the C++ standard
  promises: key order, and insertion behind equal keys (multimap) or no
  overwriting (map).
 */
module StringTransfer {
  import opened OptionType
  import opened StableSorting
  import opened Sequences

  // UTF-16 code units.
  type CefString = seq<nat>

  datatype Pair = Pair(key: CefString, value: CefString)

  // The order of cef_string_utf16_cmp: code units first, then length.
  predicate KeyLeq(a: CefString, b: CefString) {
    if a == [] then true
    else if b == [] then false
    else a[0] < b[0] || (a[0] == b[0] && KeyLeq(a[1..], b[1..]))
  }

  predicate ByKey(p: Pair, q: Pair) {
    KeyLeq(p.key, q.key)
  }

  lemma {:induction false} KeyTotal(a: CefString, b: CefString)
    ensures KeyLeq(a, b) || KeyLeq(b, a)
    ensures KeyLeq(a, b) && KeyLeq(b, a) ==> a == b
  {
    if a != [] && b != [] {
      KeyTotal(a[1..], b[1..]);
      assert a == [a[0]] + a[1..] && b == [b[0]] + b[1..];
    }
  }

  lemma {:induction false} KeyTransitive(a: CefString, b: CefString, c: CefString)
    requires KeyLeq(a, b) && KeyLeq(b, c)
    ensures KeyLeq(a, c)
  {
    if a != [] && b != [] && c != [] && a[0] == b[0] == c[0] {
      KeyTransitive(a[1..], b[1..], c[1..]);
    }
  }

  // Where two strings first differ the smaller code unit goes first, and a string
  // goes before its extensions.
  lemma {:induction false} KeyLeqExactly(a: CefString, b: CefString)
    ensures KeyLeq(a, b) <==> a <= b || exists k: nat :: DifferAt(a, b, k) && a[k] < b[k]
  {
    if a != [] && b != [] {
      var s, t := a[1..], b[1..];
      KeyLeqExactly(s, t);
      HeadTail(a);
      HeadTail(b);
      if a[0] == b[0] {
        assert a <= b <==> s <= t;
        forall k: nat ensures DifferAt(a, b, k + 1) <==> DifferAt(s, t, k) {
          DifferTail(a, b, k);
        }
        if k: nat :| DifferAt(a, b, k) && a[k] < b[k] {
          assert k > 0 && DifferAt(s, t, k - 1) && s[k - 1] < t[k - 1];
        }
        if k: nat :| DifferAt(s, t, k) && s[k] < t[k] {
          assert DifferAt(a, b, k + 1);
        }
      } else {
        assert DifferAt(a, b, 0);
      }
    }
  }

  // k is the first place where a and b differ.
  ghost predicate DifferAt(a: CefString, b: CefString, k: nat) {
    k < |a| && k < |b| && a[..k] == b[..k] && a[k] != b[k]
  }

  lemma DifferTail(a: CefString, b: CefString, k: nat)
    requires a != [] && b != [] && a[0] == b[0]
    ensures DifferAt(a, b, k + 1) <==> DifferAt(a[1..], b[1..], k)
  {
    if k < |a| - 1 && k < |b| - 1 {
      assert a[..k + 1] == [a[0]] + a[1..][..k];
      assert b[..k + 1] == [b[0]] + b[1..][..k];
      ConsTail(a[0], a[1..][..k]);
      ConsTail(b[0], b[1..][..k]);
    }
  }

  lemma ByKeyPreorder()
    ensures TotalPreorder(ByKey)
  {
    forall p, q ensures ByKey(p, q) || ByKey(q, p) {
      KeyTotal(p.key, q.key);
    }
    forall p, q, r | ByKey(p, q) && ByKey(q, r) ensures ByKey(p, r) {
      KeyTransitive(p.key, q.key, r.key);
    }
  }

  // All pairs with a key, in order, and the value a map built from s shows for it.
  function Values(s: seq<Pair>, key: CefString): seq<Pair> {
    Class(ByKey, Pair(key, []), s)
  }

  function Lookup(s: seq<Pair>, key: CefString): Option<CefString> {
    var c := Values(s, key);
    if c == [] then None else Some(c[0].value)
  }

  // As maps, a and b answer alike.
  ghost predicate SameLookups(a: seq<Pair>, b: seq<Pair>) {
    forall key :: Lookup(a, key) == Lookup(b, key)
  }

  // A map's contents: in key order, one pair a key.
  ghost predicate IsMap(s: seq<Pair>) {
    Ordered(ByKey, s) && forall key :: |Values(s, key)| <= 1
  }

  lemma {:induction false} ValuesHaveKey(s: seq<Pair>, key: CefString)
    ensures forall i :: 0 <= i < |Values(s, key)| ==> Values(s, key)[i].key == key
  {
    if s != [] {
      ValuesHaveKey(s[1..], key);
      KeyTotal(key, s[0].key);
      assert Values(s, key) == (if Equal(ByKey, Pair(key, []), s[0]) then [s[0]] else []) + Values(s[1..], key);
    }
  }

  // Only the key of the representative matters.
  lemma {:induction false} ClassByKey(s: seq<Pair>, p: Pair)
    ensures Class(ByKey, p, s) == Values(s, p.key)
  {
    if s != [] { ClassByKey(s[1..], p); }
  }

  lemma LookupAppend(a: seq<Pair>, b: seq<Pair>, key: CefString)
    ensures Lookup(a + b, key) == if Lookup(a, key).Some? then Lookup(a, key) else Lookup(b, key)
  {
    ClassAppend(ByKey, Pair(key, []), a, b);
  }

  lemma LookupSingle(p: Pair, key: CefString)
    ensures Lookup([p], key) == if key == p.key then Some(p.value) else None
  {
    KeyTotal(key, p.key);
    ClassOne(ByKey, Pair(key, []), p);
  }

  // What a sorted list shows per key is what the unsorted one did.
  lemma LookupSort(s: seq<Pair>, key: CefString)
    ensures Values(Sort(ByKey, s), key) == Values(s, key)
    ensures Lookup(Sort(ByKey, s), key) == Lookup(s, key)
  {
    ByKeyPreorder();
    SortStable(ByKey, s);
  }

  lemma SortedStays(s: seq<Pair>)
    requires Ordered(ByKey, s)
    ensures Sort(ByKey, s) == s
  {
    ByKeyPreorder();
    SortStable(ByKey, s);
    StableUnique(ByKey, Sort(ByKey, s), s);
  }

  // Two maps that show the same value for every key are the same sequence.
  lemma MapUnique(a: seq<Pair>, b: seq<Pair>)
    requires IsMap(a) && IsMap(b) && SameLookups(a, b)
    ensures a == b
  {
    ByKeyPreorder();
    forall p ensures Class(ByKey, p, a) == Class(ByKey, p, b) {
      ClassByKey(a, p);
      ClassByKey(b, p);
      ValuesHaveKey(a, p.key);
      ValuesHaveKey(b, p.key);
      assert Lookup(a, p.key) == Lookup(b, p.key);
      assert |Values(a, p.key)| <= 1 && |Values(b, p.key)| <= 1;
    }
    StableUnique(ByKey, a, b);
  }

  // Insertion goes behind the pairs with that key and disturbs no other key.
  lemma InsertBehind(s: seq<Pair>, p: Pair)
    requires Ordered(ByKey, s)
    ensures Ordered(ByKey, Insert(ByKey, p, s))
    ensures forall key :: Values(Insert(ByKey, p, s), key) == Values(s, key) + if key == p.key then [p] else []
  {
    ByKeyPreorder();
    InsertOrdered(ByKey, p, s);
    forall key ensures Values(Insert(ByKey, p, s), key) == Values(s, key) + if key == p.key then [p] else [] {
      InsertClass(ByKey, p, s, Pair(key, []));
      KeyTotal(key, p.key);
    }
  }

  // std::map::insert: nothing happens when the key is there.
  function MapInsert(s: seq<Pair>, p: Pair): seq<Pair> {
    if Lookup(s, p.key).None? then Insert(ByKey, p, s) else s
  }

  function MapInsertAll(start: seq<Pair>, came: seq<Pair>): seq<Pair> {
    if came == [] then start else MapInsert(MapInsertAll(start, came[..|came| - 1]), came[|came| - 1])
  }

  lemma MapInsertStep(s: seq<Pair>, p: Pair)
    requires IsMap(s)
    ensures IsMap(MapInsert(s, p)) && SameLookups(MapInsert(s, p), s + [p])
  {
    InsertBehind(s, p);
    forall key ensures |Values(MapInsert(s, p), key)| <= 1 && Lookup(MapInsert(s, p), key) == Lookup(s + [p], key) {
      LookupAppend(s, [p], key);
      LookupSingle(p, key);
      assert |Values(s, key)| <= 1;
    }
  }

  // Whatever pairs come, repeated keys or not, the map shows per key its own value,
  // else the first that came.
  lemma {:induction false} MapInserted(start: seq<Pair>, came: seq<Pair>)
    requires IsMap(start)
    ensures IsMap(MapInsertAll(start, came)) && SameLookups(MapInsertAll(start, came), start + came)
  {
    if came == [] {
      Units(start);
    } else {
      var front, p := came[..|came| - 1], came[|came| - 1];
      var now := MapInsertAll(start, front);
      MapInserted(start, front);
      MapInsertStep(now, p);
      PrefixStep(came, |came| - 1);
      Units(came);
      Associative(start, front, [p]);
      forall key ensures Lookup(MapInsertAll(start, came), key) == Lookup(start + came, key) {
        assert Lookup(now, key) == Lookup(start + front, key);
        assert Lookup(MapInsert(now, p), key) == Lookup(now + [p], key);
        LookupAppend(now, [p], key);
        LookupAppend(start + front, [p], key);
      }
    }
  }

  // ---- the containers ----

  class CMultimap {
    var entries: seq<Pair>

    constructor ()
      ensures entries == []
    {
      entries := [];
    }

    method Append(key: CefString, value: CefString)
      modifies this
      ensures entries == old(entries) + [Pair(key, value)]
    {
      entries := entries + [Pair(key, value)];
    }
  }

  class StdMultimap {
    var items: seq<Pair>

    ghost predicate Valid()
      reads this
    {
      Ordered(ByKey, items)
    }

    constructor ()
      ensures Valid() && items == []
    {
      items := [];
    }

    method Emplace(p: Pair)
      requires Valid()
      modifies this
      ensures Valid() && items == Insert(ByKey, p, old(items))
      ensures forall key :: Values(items, key) == Values(old(items), key) + if key == p.key then [p] else []
    {
      InsertBehind(items, p);
      items := Insert(ByKey, p, items);
    }
  }

  ghost function EntriesOf(order: seq<CefString>, contents: map<CefString, CefString>): (s: seq<Pair>)
    requires forall i :: 0 <= i < |order| ==> order[i] in contents
    ensures |s| == |order| && forall i :: 0 <= i < |order| ==> s[i] == Pair(order[i], contents[order[i]])
  {
    seq(|order|, i requires 0 <= i < |order| => Pair(order[i], contents[order[i]]))
  }

  class CMap {
    var contents: map<CefString, CefString>
    var order: seq<CefString>

    ghost predicate Valid()
      reads this
    {
      && |order| == |contents|
      && (forall i :: 0 <= i < |order| ==> order[i] in contents)
      && (forall i, j :: 0 <= i < j < |order| ==> order[i] != order[j])
    }

    ghost function Entries(): seq<Pair>
      requires Valid()
      reads this
    {
      EntriesOf(order, contents)
    }

    constructor ()
      ensures Valid() && Entries() == [] && contents.Keys == {}
    {
      contents, order := map[], [];
    }

    method Append(key: CefString, value: CefString)
      requires Valid()
      modifies this
      ensures Valid()
      ensures Entries() == if key in old(contents) then old(Entries()) else old(Entries()) + [Pair(key, value)]
      ensures contents == if key in old(contents) then old(contents) else old(contents)[key := value]
      ensures contents.Keys == old(contents.Keys) + {key}
    {
      if key !in contents {
        contents := contents[key := value];
        order := order + [key];
      }
    }
  }

  class StdMap {
    var items: seq<Pair>

    ghost predicate Valid()
      reads this
    {
      IsMap(items)
    }

    constructor ()
      ensures Valid() && items == []
    {
      items := [];
    }

    method Emplace(p: Pair)
      requires Valid()
      modifies this
      ensures Valid()
      ensures items == MapInsert(old(items), p) && SameLookups(items, old(items) + [p])
    {
      MapInsertStep(items, p);
      if Lookup(items, p.key).None? {
        items := Insert(ByKey, p, items);
      }
    }
  }

  // ---- the transfers ----

  // One more pair at the end of the list is one more insertion.
  lemma SortSnoc(s: seq<Pair>, p: Pair)
    ensures Sort(ByKey, s + [p]) == Insert(ByKey, p, Sort(ByKey, s))
  {
    Snoc(s, p);
  }

  // Into a multimap: the stable sort of what was there followed by what came.
  method MultimapFromC(from: CMultimap, to: StdMultimap)
    requires to.Valid()
    modifies to
    ensures to.Valid()
    ensures to.items == Sort(ByKey, old(to.items) + from.entries)
  {
    ghost var before := to.items;
    SortedStays(before);
    Units(before);
    for i := 0 to |from.entries|
      invariant to.Valid() && to.items == Sort(ByKey, before + from.entries[..i])
    {
      var p := Pair(from.entries[i].key, from.entries[i].value);
      to.Emplace(p);
      PrefixStep(from.entries, i);
      Associative(before, from.entries[..i], [p]);
      SortSnoc(before + from.entries[..i], p);
    }
    Units(from.entries);
  }

  method MultimapToC(from: StdMultimap, to: CMultimap)
    modifies to
    ensures to.entries == old(to.entries) + from.items
  {
    for i := 0 to |from.items|
      invariant to.entries == old(to.entries) + from.items[..i]
    {
      to.Append(from.items[i].key, from.items[i].value);
    }
  }

  // Into a map: per key the old value, else the first one that came.
  method MapFromC(from: CMap, to: StdMap)
    requires from.Valid() && to.Valid()
    modifies to
    ensures to.Valid() && to.items == MapInsertAll(old(to.items), from.Entries())
    ensures SameLookups(to.items, old(to.items) + from.Entries())
  {
    ghost var before, entries := to.items, from.Entries();
    for i := 0 to |from.order|
      invariant to.Valid() && to.items == MapInsertAll(before, entries[..i])
    {
      PrefixStep(entries, i);
      to.Emplace(Pair(from.order[i], from.contents[from.order[i]]));
    }
    Units(entries);
    MapInserted(before, entries);
  }

  // The pairs of s whose keys are not in `known`, in order.
  function NewOnes(known: set<CefString>, s: seq<Pair>): seq<Pair> {
    if s == [] then []
    else if s[|s| - 1].key in known then NewOnes(known, s[..|s| - 1])
    else NewOnes(known, s[..|s| - 1]) + [s[|s| - 1]]
  }

  lemma NewOnesStep(known: set<CefString>, s: seq<Pair>, i: nat)
    requires i < |s|
    ensures NewOnes(known, s[..i + 1]) == NewOnes(known, s[..i]) + if s[i].key in known then [] else [s[i]]
  {
    PrefixStep(s, i);
    Units(NewOnes(known, s[..i]));
  }

  ghost function KeysOf(s: seq<Pair>): set<CefString> {
    if s == [] then {} else KeysOf(s[..|s| - 1]) + {s[|s| - 1].key}
  }

  lemma {:induction false} KeyNotBefore(s: seq<Pair>, n: nat, key: CefString)
    requires n <= |s| && forall k :: 0 <= k < n ==> s[k].key != key
    ensures key !in KeysOf(s[..n])
  {
    if n > 0 {
      PrefixStep(s, n - 1);
      KeyNotBefore(s, n - 1, key);
    }
  }

  // Distinct keys, as the entries of a C map have.
  ghost predicate UniqueKeys(s: seq<Pair>) {
    forall i, j :: 0 <= i < j < |s| ==> s[i].key != s[j].key
  }

  lemma {:induction false} KeysSize(s: seq<Pair>, n: nat)
    requires UniqueKeys(s) && n <= |s|
    ensures |KeysOf(s[..n])| == n
  {
    if n > 0 {
      PrefixStep(s, n - 1);
      KeysSize(s, n - 1);
      KeyNotBefore(s, n - 1, s[n - 1].key);
    }
  }

  lemma {:induction false} KeysWithin(s: seq<Pair>, keys: set<CefString>)
    requires forall i :: 0 <= i < |s| ==> s[i].key in keys
    ensures KeysOf(s) <= keys
  {
    if s != [] { KeysWithin(s[..|s| - 1], keys); }
  }

  lemma SubsetOfSameSize<T>(a: set<T>, b: set<T>)
    requires a <= b && |a| == |b|
    ensures a == b
  {
    assert |b - a| == 0;
    assert b == a + (b - a);
  }

  lemma AllKeys(s: seq<Pair>, keys: set<CefString>)
    requires UniqueKeys(s) && |s| == |keys| && forall i :: 0 <= i < |s| ==> s[i].key in keys
    ensures KeysOf(s) == keys
  {
    KeysSize(s, |s|);
    Units(s);
    KeysWithin(s, keys);
    SubsetOfSameSize(KeysOf(s), keys);
  }

  lemma KeysOfEntries(order: seq<CefString>, contents: map<CefString, CefString>)
    requires |order| == |contents| && forall i :: 0 <= i < |order| ==> order[i] in contents
    requires forall i, j :: 0 <= i < j < |order| ==> order[i] != order[j]
    ensures UniqueKeys(EntriesOf(order, contents)) && KeysOf(EntriesOf(order, contents)) == contents.Keys
  {
    var s := EntriesOf(order, contents);
    assert forall i :: 0 <= i < |s| ==> s[i].key == order[i];
    AllKeys(s, contents.Keys);
  }

  // What a C map holding `before` holds once the pairs of s are appended to it.
  ghost function Appended(before: seq<Pair>, s: seq<Pair>): seq<Pair> {
    before + NewOnes(KeysOf(before), s)
  }

  // One pair handed to the C map: what it holds afterwards.
  lemma MapToCStep(known: set<CefString>, before: seq<Pair>, s: seq<Pair>, i: nat)
    requires IsMap(s) && i < |s|
    ensures s[i].key in known + KeysOf(s[..i]) <==> s[i].key in known
    ensures known + KeysOf(s[..i + 1]) == known + KeysOf(s[..i]) + {s[i].key}
    ensures before + NewOnes(known, s[..i + 1]) ==
            if s[i].key in known then before + NewOnes(known, s[..i])
            else before + NewOnes(known, s[..i]) + [Pair(s[i].key, s[i].value)]
  {
    KeyIsNew(s, i);
    KeyNotBefore(s, i, s[i].key);
    PrefixStep(s, i);
    NewOnesStep(known, s, i);
    Units(NewOnes(known, s[..i]));
    Associative(before, NewOnes(known, s[..i]), [s[i]]);
  }

  // A map's iteration order is its key order; keys the C map has are kept as they are.
  method MapToC(from: StdMap, to: CMap)
    requires from.Valid() && to.Valid()
    modifies to
    ensures to.Valid()
    ensures to.Entries() == Appended(old(to.Entries()), from.items)
    ensures to.Entries() == OverwriteAll(old(to.Entries()), from.items) <==> SharedAgree(old(to.Entries()), from.items)
    ensures AnswersAs(to.Entries(), from.items) <==> SharedAgree(old(to.Entries()), from.items)
  {
    ghost var before, known := to.Entries(), to.contents.Keys;
    KeysOfEntries(to.order, to.contents);
    Units(before);
    for i := 0 to |from.items|
      invariant to.Valid()
      invariant to.contents.Keys == known + KeysOf(from.items[..i])
      invariant to.Entries() == before + NewOnes(known, from.items[..i])
    {
      MapToCStep(known, before, from.items, i);
      to.Append(from.items[i].key, from.items[i].value);
    }
    Units(from.items);
    MapHasUniqueKeys(from.items);
    OverwritesExactly(before, from.items);
  }

  lemma KeyIsNew(s: seq<Pair>, i: nat)
    requires IsMap(s) && i < |s|
    ensures forall k :: 0 <= k < i ==> s[k].key != s[i].key
  {
    forall k | 0 <= k < i ensures s[k].key != s[i].key {
      if s[k].key == s[i].key {
        TwoOccurrences(s, k, i);
      }
    }
  }

  lemma MapHasUniqueKeys(s: seq<Pair>)
    requires IsMap(s)
    ensures UniqueKeys(s)
  {
    forall i, j | 0 <= i < j < |s| ensures s[i].key != s[j].key {
      KeyIsNew(s, j);
    }
  }

  lemma TwoOccurrences(s: seq<Pair>, i: nat, j: nat)
    requires i < j < |s| && s[i].key == s[j].key
    ensures |Values(s, s[i].key)| >= 2
  {
    var key := s[i].key;
    var p := Pair(key, []);
    assert s == s[..i] + [s[i]] + s[i + 1..j] + [s[j]] + s[j + 1..];
    ClassAppend(ByKey, p, s[..i] + [s[i]] + s[i + 1..j] + [s[j]], s[j + 1..]);
    ClassAppend(ByKey, p, s[..i] + [s[i]] + s[i + 1..j], [s[j]]);
    ClassAppend(ByKey, p, s[..i] + [s[i]], s[i + 1..j]);
    ClassAppend(ByKey, p, s[..i], [s[i]]);
    LookupSingle(s[i], key);
    LookupSingle(s[j], key);
  }

  lemma {:induction false} AllNew(s: seq<Pair>)
    ensures NewOnes({}, s) == s
  {
    if s != [] { AllNew(s[..|s| - 1]); }
  }

  // ---- the documented overwriting ----

  lemma {:induction false} KeysAnswer(s: seq<Pair>, key: CefString)
    ensures key in KeysOf(s) <==> Lookup(s, key).Some?
  {
    if s != [] {
      var n := |s| - 1;
      KeysAnswer(s[..n], key);
      PrefixStep(s, n);
      Units(s);
      LookupAppend(s[..n], [s[n]], key);
      LookupSingle(s[n], key);
    }
  }

  lemma {:induction false} NewOnesAnswer(known: set<CefString>, s: seq<Pair>, key: CefString)
    requires key !in known
    ensures Lookup(NewOnes(known, s), key) == Lookup(s, key)
  {
    if s != [] {
      var n := |s| - 1;
      NewOnesAnswer(known, s[..n], key);
      PrefixStep(s, n);
      Units(s);
      LookupAppend(s[..n], [s[n]], key);
      LookupAppend(NewOnes(known, s[..n]), [s[n]], key);
      LookupSingle(s[n], key);
    }
  }

  ghost predicate HasKey(s: seq<Pair>, key: CefString) {
    exists i :: 0 <= i < |s| && s[i].key == key
  }

  // What the header promises of appending a pair: when its key is there the value is
  // overwritten in place, otherwise the pair goes to the end.
  ghost function Overwrite(before: seq<Pair>, p: Pair): seq<Pair> {
    if HasKey(before, p.key) then
      seq(|before|, i requires 0 <= i < |before| => if before[i].key == p.key then p else before[i])
    else before + [p]
  }

  ghost function OverwriteAll(before: seq<Pair>, s: seq<Pair>): seq<Pair> {
    if s == [] then before else Overwrite(OverwriteAll(before, s[..|s| - 1]), s[|s| - 1])
  }

  // Where the C map has a key of s, it has s's value already.
  ghost predicate SharedAgree(before: seq<Pair>, s: seq<Pair>) {
    forall i :: 0 <= i < |before| && Lookup(s, before[i].key).Some? ==> Lookup(s, before[i].key).value == before[i].value
  }

  // The C map answers as the source for each key of the source.
  ghost predicate AnswersAs(after: seq<Pair>, s: seq<Pair>) {
    forall key :: Lookup(s, key).Some? ==> Lookup(after, key) == Lookup(s, key)
  }

  lemma UniqueAnswer(s: seq<Pair>, i: nat)
    requires UniqueKeys(s) && i < |s|
    ensures Lookup(s, s[i].key) == Some(s[i].value)
  {
    var key := s[i].key;
    KeyNotBefore(s, i, key);
    KeysAnswer(s[..i], key);
    assert s == s[..i] + [s[i]] + s[i + 1..];
    LookupAppend(s[..i] + [s[i]], s[i + 1..], key);
    LookupAppend(s[..i], [s[i]], key);
    LookupSingle(s[i], key);
  }

  lemma AnswerFound(s: seq<Pair>, key: CefString) returns (i: nat)
    requires UniqueKeys(s) && Lookup(s, key).Some?
    ensures i < |s| && s[i].key == key && Lookup(s, key) == Some(s[i].value)
  {
    KeysAnswer(s, key);
    i := KeyFound(s, key);
    UniqueAnswer(s, i);
  }

  lemma {:induction false} KeyFound(s: seq<Pair>, key: CefString) returns (i: nat)
    requires key in KeysOf(s)
    ensures i < |s| && s[i].key == key
  {
    i := |s| - 1;
    if s[i].key != key { i := KeyFound(s[..i], key); }
  }

  // One key of the source, after the transfer.
  lemma AppendedAnswer(before: seq<Pair>, s: seq<Pair>, key: CefString)
    ensures Lookup(Appended(before, s), key) ==
            if Lookup(before, key).Some? then Lookup(before, key) else Lookup(s, key)
  {
    LookupAppend(before, NewOnes(KeysOf(before), s), key);
    KeysAnswer(before, key);
    if key !in KeysOf(before) { NewOnesAnswer(KeysOf(before), s, key); }
  }

  // p with the value that s has for its key, if it has one.
  function Updated(p: Pair, s: seq<Pair>): Pair {
    if Lookup(s, p.key).Some? then Pair(p.key, Lookup(s, p.key).value) else p
  }

  ghost function AllUpdated(before: seq<Pair>, s: seq<Pair>): (r: seq<Pair>)
    ensures |r| == |before| && forall i :: 0 <= i < |before| ==> r[i] == Updated(before[i], s)
  {
    seq(|before|, i requires 0 <= i < |before| => Updated(before[i], s))
  }

  lemma {:induction false} NewOnesKeys(known: set<CefString>, s: seq<Pair>)
    ensures forall i :: 0 <= i < |NewOnes(known, s)| ==>
              NewOnes(known, s)[i].key !in known && HasKey(s, NewOnes(known, s)[i].key)
  {
    if s != [] {
      var n := |s| - 1;
      NewOnesKeys(known, s[..n]);
      forall key | HasKey(s[..n], key) ensures HasKey(s, key) {
        var i :| 0 <= i < n && s[..n][i].key == key;
        assert s[i].key == key;
      }
      assert HasKey(s, s[n].key);
    }
  }

  lemma {:induction false} KeyIn(s: seq<Pair>, i: nat)
    requires i < |s|
    ensures s[i].key in KeysOf(s)
  {
    if i < |s| - 1 { KeyIn(s[..|s| - 1], i); }
  }

  lemma KeysHad(s: seq<Pair>, key: CefString)
    ensures key in KeysOf(s) <==> HasKey(s, key)
  {
    if key in KeysOf(s) {
      var i := KeyFound(s, key);
    } else {
      forall i | 0 <= i < |s| ensures s[i].key != key {
        KeyIn(s, i);
      }
    }
  }

  lemma LastIsNew(front: seq<Pair>, p: Pair)
    requires UniqueKeys(front + [p])
    ensures !HasKey(front, p.key) && Lookup(front, p.key).None?
  {
    var s := front + [p];
    forall i | 0 <= i < |front| ensures front[i].key != p.key {
      assert s[i] == front[i] && s[|front|] == p;
    }
    KeysHad(front, p.key);
    KeysAnswer(front, p.key);
  }

  lemma KeyInAppend(a: seq<Pair>, b: seq<Pair>, key: CefString)
    ensures HasKey(a + b, key) <==> HasKey(a, key) || HasKey(b, key)
  {
    if HasKey(a, key) {
      var i :| 0 <= i < |a| && a[i].key == key;
      assert (a + b)[i].key == key;
    }
    if HasKey(b, key) {
      var i :| 0 <= i < |b| && b[i].key == key;
      assert (a + b)[|a| + i].key == key;
    }
  }

  lemma OverwriteInFront(a: seq<Pair>, b: seq<Pair>, p: Pair)
    requires !HasKey(b, p.key)
    ensures Overwrite(a + b, p) == if HasKey(a, p.key) then Overwrite(a, p) + b else a + b + [p]
  {
    KeyInAppend(a, b, p.key);
    if HasKey(a, p.key) {
      assert forall k :: 0 <= k < |b| ==> (a + b)[|a| + k] == b[k] && b[k].key != p.key;
    }
  }

  lemma UpdatedLast(before: seq<Pair>, front: seq<Pair>, p: Pair)
    requires UniqueKeys(front + [p])
    ensures var updated := AllUpdated(before, front);
            && (HasKey(updated, p.key) <==> HasKey(before, p.key))
            && AllUpdated(before, front + [p]) == if HasKey(before, p.key) then Overwrite(updated, p) else updated
  {
    var updated := AllUpdated(before, front);
    LastIsNew(front, p);
    forall i | 0 <= i < |before|
      ensures updated[i].key == before[i].key
      ensures Updated(before[i], front + [p]) == if before[i].key == p.key then p else updated[i]
    {
      LookupAppend(front, [p], before[i].key);
      LookupSingle(p, before[i].key);
    }
    if HasKey(before, p.key) {
      var i :| 0 <= i < |before| && before[i].key == p.key;
      assert updated[i].key == p.key;
    }
  }

  // The last pair of the source, whose key is not among the others.
  lemma UpdateStep(before: seq<Pair>, front: seq<Pair>, p: Pair)
    requires UniqueKeys(front + [p])
    ensures Overwrite(AllUpdated(before, front) + NewOnes(KeysOf(before), front), p) ==
            AllUpdated(before, front + [p]) + NewOnes(KeysOf(before), front + [p])
  {
    var known := KeysOf(before);
    var updated, behind := AllUpdated(before, front), NewOnes(known, front);
    Snoc(front, p);
    LastIsNew(front, p);
    NewOnesKeys(known, front);
    KeysHad(before, p.key);
    UpdatedLast(before, front, p);
    OverwriteInFront(updated, behind, p);
    Associative(updated, behind, [p]);
  }

  // Overwriting pair by pair updates the pairs with shared keys in place and puts
  // the new ones behind.
  lemma {:induction false} OverwriteAllIs(before: seq<Pair>, s: seq<Pair>)
    requires UniqueKeys(s)
    ensures OverwriteAll(before, s) == AllUpdated(before, s) + NewOnes(KeysOf(before), s)
  {
    if s == [] {
      assert AllUpdated(before, s) == before;
      Units(before);
    } else {
      var front, p := s[..|s| - 1], s[|s| - 1];
      OverwriteAllIs(before, front);
      UpdateStep(before, front, p);
      Snoc(front, p);
      PrefixStep(s, |s| - 1);
      Units(s);
    }
  }

  // The transfer does what the header documents, and leaves a C map answering as the
  // source for each of its keys, exactly when shared keys already agree.
  lemma OverwritesExactly(before: seq<Pair>, s: seq<Pair>)
    requires UniqueKeys(before) && UniqueKeys(s)
    ensures Appended(before, s) == OverwriteAll(before, s) <==> SharedAgree(before, s)
    ensures AnswersAs(Appended(before, s), s) <==> SharedAgree(before, s)
  {
    OverwriteAllIs(before, s);
    SameFront(before, AllUpdated(before, s), NewOnes(KeysOf(before), s));
    assert before == AllUpdated(before, s) <==> SharedAgree(before, s);
    if SharedAgree(before, s) {
      forall key | Lookup(s, key).Some? ensures Lookup(Appended(before, s), key) == Lookup(s, key) {
        AppendedAnswer(before, s, key);
        if Lookup(before, key).Some? {
          var i := AnswerFound(before, key);
          assert Lookup(s, before[i].key).value == before[i].value;
        }
      }
    } else {
      var i :| 0 <= i < |before| && Lookup(s, before[i].key).Some? && Lookup(s, before[i].key).value != before[i].value;
      UniqueAnswer(before, i);
      AppendedAnswer(before, s, before[i].key);
    }
  }

  lemma SameFront<T>(a: seq<T>, b: seq<T>, c: seq<T>)
    requires |a| == |b|
    ensures a + c == b + c <==> a == b
  {
    assert (a + c)[..|a|] == a && (b + c)[..|b|] == b;
  }

  // A C map that has the key keeps its value.
  lemma SharedKeyKeepsOldValue(key: CefString, had: CefString, came: CefString)
    requires had != came
    ensures var before, s := [Pair(key, had)], [Pair(key, came)];
            && IsMap(s) && UniqueKeys(before)
            && Appended(before, s) == before && Lookup(before, key) == Some(had) && Lookup(s, key) == Some(came)
  {
    var before, s := [Pair(key, had)], [Pair(key, came)];
    forall k ensures |Values(s, k)| <= 1 {
      ClassOne(ByKey, Pair(k, []), s[0]);
    }
    LookupSingle(before[0], key);
    LookupSingle(s[0], key);
    KeysAnswer(before, key);
    assert s[..0] == [] && NewOnes(KeysOf(before), s[..0]) == [];
    assert NewOnes(KeysOf(before), s) == [];
    Units(before);
  }

  // ---- round trips ----

  // Multimap to C and back into an empty multimap gives the multimap again.
  method MultimapRoundTrip(m: StdMultimap) returns (back: StdMultimap)
    requires m.Valid()
    ensures fresh(back) && back.Valid() && back.items == m.items
  {
    var c := new CMultimap();
    MultimapToC(m, c);
    Units(m.items);
    back := new StdMultimap();
    MultimapFromC(c, back);
    SortedStays(m.items);
  }

  method MapToFreshC(m: StdMap) returns (c: CMap)
    requires m.Valid()
    ensures fresh(c) && c.Valid() && c.Entries() == m.items
  {
    c := new CMap();
    MapToC(m, c);
    AllNew(m.items);
    Units(m.items);
    assert Appended([], m.items) == [] + NewOnes({}, m.items);
  }

  method FreshMapFromC(c: CMap) returns (back: StdMap)
    requires c.Valid()
    ensures fresh(back) && back.Valid()
    ensures SameLookups(back.items, c.Entries())
  {
    back := new StdMap();
    Units(c.Entries());
    MapFromC(c, back);
  }

  method MapRoundTrip(m: StdMap) returns (back: StdMap)
    requires m.Valid()
    ensures fresh(back) && back.Valid() && back.items == m.items
  {
    var c := MapToFreshC(m);
    back := FreshMapFromC(c);
    MapUnique(back.items, m.items);
  }

  // Given the same pairs, with repeated keys or without, a map that starts like a
  // multimap ends with the first value per key of what the multimap ends with.
  lemma MapIsFirstOfMultimap(start: seq<Pair>, came: seq<Pair>)
    requires IsMap(start)
    ensures var m, mm := MapInsertAll(start, came), Sort(ByKey, start + came);
            forall key :: Values(m, key) == if Values(mm, key) == [] then [] else [Values(mm, key)[0]]
  {
    var m, mm := MapInsertAll(start, came), Sort(ByKey, start + came);
    MapInserted(start, came);
    forall key ensures Values(m, key) == if Values(mm, key) == [] then [] else [Values(mm, key)[0]] {
      LookupSort(start + came, key);
      ValuesHaveKey(m, key);
      ValuesHaveKey(mm, key);
      assert Lookup(m, key) == Lookup(start + came, key) && |Values(m, key)| <= 1;
    }
  }

  // The per-key reading is exact: it determines the multimap, and it is the stable sort.
  lemma MultimapDetermined(before: seq<Pair>, came: seq<Pair>, r: seq<Pair>)
    ensures r == Sort(ByKey, before + came) <==>
            Ordered(ByKey, r) && forall key :: Values(r, key) == Values(before, key) + Values(came, key)
  {
    ByKeyPreorder();
    var s := Sort(ByKey, before + came);
    SortStable(ByKey, before + came);
    forall key ensures Values(s, key) == Values(before, key) + Values(came, key) {
      ClassAppend(ByKey, Pair(key, []), before, came);
    }
    if Ordered(ByKey, r) && forall key :: Values(r, key) == Values(before, key) + Values(came, key) {
      forall p ensures Class(ByKey, p, r) == Class(ByKey, p, before + came) {
        ClassByKey(r, p);
        ClassByKey(before + came, p);
        ClassAppend(ByKey, Pair(p.key, []), before, came);
      }
      SortCharacterised(ByKey, before + came, r);
    }
  }
}
