/**
 * `HTTPHeaders` (Sources/Protocols/HTTP/Models/HTTPHeader.swift): a lookup table
 * keyed by header name, and beside it the list of (name, value) entries in the
 * order they were set; the list is public (`HTTPHeader.swift:14`).
 *
 * The table is keyed by the lowercase form of the name, which is what
 * `HTTPHeaderName`'s `==` and `hash` look at. `Store` is the pair of the two
 * structures as a value and `Store.Update` is `updateOrderHeader` on it; the
 * class `HTTPHeaders` keeps the two as fields and is proved against `Update`.
 */
module Headers {
  import opened Wrappers
  import opened HTTPHeaderNames

  type Entry = (HeaderName, string)

  /** `.setCookie`, the one header that may occur more than once; only its lowercase form matters. */
  const SetCookie: string := "set-cookie"

  predicate IsSetCookie(key: HeaderName) {
    key.nameInLowercase == SetCookie
  }

  function NameOf(e: Entry): string {
    e.0.nameInLowercase
  }

  /** How many entries of `order` carry the (lowercase) name `k`. */
  function Occurrences(order: seq<Entry>, k: string): (n: nat)
    ensures n <= |order|
  {
    if order == [] then 0
    else (if NameOf(order[0]) == k then 1 else 0) + Occurrences(order[1..], k)
  }

  /** The value of the last entry named `k`, if there is one. */
  function LastValue(order: seq<Entry>, k: string): Option<string> {
    if order == [] then None
    else if NameOf(order[|order| - 1]) == k then Some(order[|order| - 1].1)
    else LastValue(order[..|order| - 1], k)
  }

  /** The entries whose name is not `k`, in their order. */
  function Others(order: seq<Entry>, k: string): seq<Entry> {
    if order == [] then []
    else (if NameOf(order[0]) == k then [] else [order[0]]) + Others(order[1..], k)
  }

  /** `orderHeaders.firstIndex(where:)` with the test "has lowercase name `k`". */
  function FirstIndex(order: seq<Entry>, k: string): (r: Option<nat>)
    ensures r.None? <==> forall i :: 0 <= i < |order| ==> NameOf(order[i]) != k
    ensures r.Some? ==> r.value < |order| && NameOf(order[r.value]) == k
    ensures r.Some? ==> forall j :: 0 <= j < r.value ==> NameOf(order[j]) != k
  {
    if order == [] then None
    else if NameOf(order[0]) == k then Some(0)
    else match FirstIndex(order[1..], k)
      case None => None
      case Some(i) => Some(i + 1)
  }

  /** `remove(at:)`. */
  function RemoveAt(order: seq<Entry>, i: nat): seq<Entry>
    requires i < |order|
  {
    order[..i] + order[i + 1..]
  }

  /** Removes the first entry named `k`, if there is one. */
  function RemoveFirst(order: seq<Entry>, k: string): seq<Entry> {
    match FirstIndex(order, k)
    case None => order
    case Some(i) => RemoveAt(order, i)
  }

  /**
   * `RemoveFirst` takes out exactly the entry at the least index holding `k`,
   * and leaves a list without `k` as it is.
   */
  lemma RemoveFirstTakesFirst(order: seq<Entry>, k: string)
    ensures (forall i :: 0 <= i < |order| ==> NameOf(order[i]) != k) ==> RemoveFirst(order, k) == order
    ensures forall i ::
              0 <= i < |order| && NameOf(order[i]) == k && (forall j :: 0 <= j < i ==> NameOf(order[j]) != k)
              ==> RemoveFirst(order, k) == order[..i] + order[i + 1..]
  {
  }

  datatype Store = Store(headers: map<string, string>, orderHeaders: seq<Entry>) {

    /**
     * `count`: the size of the lookup table (not the length of the order list),
     * so never more than the number of entries in the list.
     */
    function Count(): (n: nat)
      ensures Inv(this) ==> n <= |orderHeaders|
    {
      TableNoLargerThanList(this);
      |headers|
    }

    /** The getters of both subscripts, given the lowercase name. */
    function Lookup(k: string): (r: Option<string>)
      ensures r.Some? <==> k in headers
      ensures r.Some? ==> r.value == headers[k]
    {
      if k in headers then Some(headers[k]) else None
    }

    /**
     * `updateOrderHeader(with:newValue:)`. Afterwards the getter returns exactly
     * the value set (`nil` after a delete) and every other name reads as before;
     * a set value is the last entry of the list, and a delete removes at most one
     * entry.
     */
    function Update(key: HeaderName, newValue: Option<string>): (r: Store)
      ensures r.Lookup(key.nameInLowercase) == newValue
      ensures forall j :: j != key.nameInLowercase ==> r.Lookup(j) == Lookup(j)
      ensures newValue.Some? ==> |r.orderHeaders| > 0 && r.orderHeaders[|r.orderHeaders| - 1] == (key, newValue.value)
      ensures newValue.None? ==> |orderHeaders| - 1 <= |r.orderHeaders| <= |orderHeaders|
    {
      var k := key.nameInLowercase;
      match newValue
      case Some(v) =>
        var kept := if k in headers && !IsSetCookie(key) then RemoveFirst(orderHeaders, k) else orderHeaders;
        Store(headers[k := v], kept + [(key, v)])
      case None =>
        Store(headers - {k}, RemoveFirst(orderHeaders, k))
    }
  }

  /**
   * The invariant tying the two structures together: a name other than
   * Set-Cookie has one entry in the order list when it is in the table and none
   * otherwise, and the table's value for any name is the value of the last entry
   * of that name.
   */
  ghost predicate Inv(s: Store) {
    && (forall k :: k != SetCookie ==> Occurrences(s.orderHeaders, k) == (if k in s.headers then 1 else 0))
    && (forall k :: k in s.headers ==> LastValue(s.orderHeaders, k) == Some(s.headers[k]))
  }

  /** No two entries share a lowercase name, as for the keys of a Swift dictionary of header names. */
  predicate DistinctNames(entries: seq<Entry>) {
    forall i, j :: 0 <= i < j < |entries| ==> NameOf(entries[i]) != NameOf(entries[j])
  }

  /** The table built from a dictionary given as its entries. */
  function TableOf(entries: seq<Entry>): map<string, string> {
    if entries == [] then map[]
    else TableOf(entries[..|entries| - 1])[NameOf(entries[|entries| - 1]) := entries[|entries| - 1].1]
  }

  // ---------------------------------------------------------------------------
  // Facts about the list functions

  lemma {:induction false} OccurrencesAppend(a: seq<Entry>, b: seq<Entry>, k: string)
    ensures Occurrences(a + b, k) == Occurrences(a, k) + Occurrences(b, k)
  {
    if a != [] {
      assert (a + b)[1..] == a[1..] + b;
      OccurrencesAppend(a[1..], b, k);
    } else {
      assert a + b == b;
    }
  }

  lemma {:induction false} OccurrencesNone(order: seq<Entry>, k: string)
    ensures Occurrences(order, k) == 0 <==> forall i :: 0 <= i < |order| ==> NameOf(order[i]) != k
  {
    if order != [] {
      OccurrencesNone(order[1..], k);
      assert forall i :: 1 <= i < |order| ==> order[i] == order[1..][i - 1];
    }
  }

  lemma {:induction false} OthersAppend(a: seq<Entry>, b: seq<Entry>, k: string)
    ensures Others(a + b, k) == Others(a, k) + Others(b, k)
  {
    if a != [] {
      assert (a + b)[1..] == a[1..] + b;
      OthersAppend(a[1..], b, k);
    } else {
      assert a + b == b;
    }
  }

  lemma {:induction false} LastValueAppend(a: seq<Entry>, b: seq<Entry>, k: string)
    ensures LastValue(a + b, k) == if LastValue(b, k).Some? then LastValue(b, k) else LastValue(a, k)
  {
    if b != [] {
      var ab := a + b;
      assert ab[..|ab| - 1] == a + b[..|b| - 1];
      assert ab[|ab| - 1] == b[|b| - 1];
      LastValueAppend(a, b[..|b| - 1], k);
    } else {
      assert a + b == a;
    }
  }

  /** When `LastValue` finds an entry named `k`, `k` occurs in `order`. */
  lemma LastValueFound(order: seq<Entry>, k: string)
    requires LastValue(order, k).Some?
    ensures Occurrences(order, k) > 0
  {
    if NameOf(order[|order| - 1]) != k {
      LastValueFound(order[..|order| - 1], k);
      assert order == order[..|order| - 1] + [order[|order| - 1]];
      OccurrencesAppend(order[..|order| - 1], [order[|order| - 1]], k);
    } else {
      OccurrencesNone(order, k);
    }
  }

  /** Splits `order` around the first entry named `k`. */
  lemma RemoveFirstSplit(order: seq<Entry>, k: string, i: nat)
    requires FirstIndex(order, k) == Some(i)
    ensures order == order[..i] + [order[i]] + order[i + 1..]
    ensures RemoveFirst(order, k) == order[..i] + order[i + 1..]
    ensures Occurrences(order[..i], k) == 0 && Others(order[..i], k) == order[..i]
  {
    assert order == order[..i] + [order[i]] + order[i + 1..];
    OccurrencesNone(order[..i], k);
    NoneNamedOthers(order[..i], k);
  }

  lemma {:induction false} NoneNamedOthers(order: seq<Entry>, k: string)
    requires forall i :: 0 <= i < |order| ==> NameOf(order[i]) != k
    ensures Others(order, k) == order
  {
    if order != [] {
      NoneNamedOthers(order[1..], k);
    }
  }

  /** Removing the first entry named `k` takes away one occurrence of `k`, if there is one, and no other name's. */
  lemma RemoveFirstOccurrences(order: seq<Entry>, k: string, j: string)
    ensures Occurrences(RemoveFirst(order, k), j)
      == if j == k && Occurrences(order, k) > 0 then Occurrences(order, j) - 1 else Occurrences(order, j)
  {
    match FirstIndex(order, k)
    case None =>
      OccurrencesNone(order, k);
    case Some(i) =>
      RemoveFirstSplit(order, k, i);
      var a, x, b := order[..i], [order[i]], order[i + 1..];
      OccurrencesAppend(a + x, b, j);
      OccurrencesAppend(a, x, j);
      OccurrencesAppend(a, b, j);
      assert Occurrences(x, k) == 1;
  }

  /** Removing the first entry named `k` does not change the last value of any other name. */
  lemma RemoveFirstLastValue(order: seq<Entry>, k: string, j: string)
    requires j != k
    ensures LastValue(RemoveFirst(order, k), j) == LastValue(order, j)
  {
    match FirstIndex(order, k)
    case None =>
    case Some(i) =>
      RemoveFirstSplit(order, k, i);
      var a, x, b := order[..i], [order[i]], order[i + 1..];
      LastValueAppend(a + x, b, j);
      LastValueAppend(a, x, j);
      LastValueAppend(a, b, j);
  }

  /** Removing the first entry named `k` leaves the entries of all other names, in order. */
  lemma RemoveFirstOthers(order: seq<Entry>, k: string)
    ensures Others(RemoveFirst(order, k), k) == Others(order, k)
  {
    match FirstIndex(order, k)
    case None =>
    case Some(i) =>
      RemoveFirstSplit(order, k, i);
      var a, x, b := order[..i], [order[i]], order[i + 1..];
      assert Others(x, k) == [];
      OthersAppend(a + x, b, k);
      OthersAppend(a, x, k);
      OthersAppend(a, b, k);
  }

  /** Removing the first entry named `k` shortens the list by one exactly when `k` occurs. */
  lemma RemoveFirstLength(order: seq<Entry>, k: string)
    ensures |RemoveFirst(order, k)| == if Occurrences(order, k) > 0 then |order| - 1 else |order|
  {
    OccurrencesNone(order, k);
  }

  lemma AppendEffect(order: seq<Entry>, e: Entry)
    ensures forall j :: Occurrences(order + [e], j) == Occurrences(order, j) + (if NameOf(e) == j then 1 else 0)
    ensures forall j :: LastValue(order + [e], j) == if NameOf(e) == j then Some(e.1) else LastValue(order, j)
  {
    forall j ensures Occurrences(order + [e], j) == Occurrences(order, j) + (if NameOf(e) == j then 1 else 0) {
      OccurrencesAppend(order, [e], j);
    }
    forall j ensures LastValue(order + [e], j) == if NameOf(e) == j then Some(e.1) else LastValue(order, j) {
      LastValueAppend(order, [e], j);
    }
  }

  // ---------------------------------------------------------------------------
  // The invariant

  /** `updateOrderHeader` keeps the invariant, for every name and every new value or `nil`. */
  lemma UpdatePreservesInv(s: Store, key: HeaderName, newValue: Option<string>)
    requires Inv(s)
    ensures Inv(s.Update(key, newValue))
  {
    match newValue
    case Some(v) => SetPreservesInv(s, key, v);
    case None => DeletePreservesInv(s, key);
  }

  lemma SetPreservesInv(s: Store, key: HeaderName, v: string)
    requires Inv(s)
    ensures Inv(s.Update(key, Some(v)))
  {
    var k := key.nameInLowercase;
    var t := s.Update(key, Some(v));
    var kept := if k in s.headers && !IsSetCookie(key) then RemoveFirst(s.orderHeaders, k) else s.orderHeaders;
    assert t.orderHeaders == kept + [(key, v)];
    AppendEffect(kept, (key, v));
    forall j | j != SetCookie
      ensures Occurrences(t.orderHeaders, j) == (if j in t.headers then 1 else 0)
    {
      RemoveFirstOccurrences(s.orderHeaders, k, j);
    }
    forall j | j in t.headers
      ensures LastValue(t.orderHeaders, j) == Some(t.headers[j])
    {
      if j != k {
        RemoveFirstLastValue(s.orderHeaders, k, j);
      }
    }
  }

  lemma DeletePreservesInv(s: Store, key: HeaderName)
    requires Inv(s)
    ensures Inv(s.Update(key, None))
  {
    var k := key.nameInLowercase;
    var t := s.Update(key, None);
    forall j | j != SetCookie
      ensures Occurrences(t.orderHeaders, j) == (if j in t.headers then 1 else 0)
    {
      RemoveFirstOccurrences(s.orderHeaders, k, j);
    }
    forall j | j in t.headers
      ensures LastValue(t.orderHeaders, j) == Some(t.headers[j])
    {
      RemoveFirstLastValue(s.orderHeaders, k, j);
    }
  }

  /** Every name of a dictionary of headers is in the table built from it, with its value. */
  lemma {:induction false} TableOfEntry(entries: seq<Entry>, i: nat)
    requires DistinctNames(entries) && i < |entries|
    ensures NameOf(entries[i]) in TableOf(entries)
    ensures TableOf(entries)[NameOf(entries[i])] == entries[i].1
  {
    var n := |entries| - 1;
    if i < n {
      TableOfEntry(entries[..n], i);
    }
  }

  /** The state `init` leaves behind satisfies the invariant. */
  lemma {:induction false} InitInv(entries: seq<Entry>)
    requires DistinctNames(entries)
    ensures Inv(Store(TableOf(entries), entries))
  {
    if entries != [] {
      var n := |entries| - 1;
      var front, e := entries[..n], entries[n];
      assert entries == front + [e];
      InitInv(front);
      AppendEffect(front, e);
      forall j | j == NameOf(e) ensures Occurrences(front, j) == 0 {
        forall i | 0 <= i < |front| ensures NameOf(front[i]) != j {
          assert front[i] == entries[i];
        }
        OccurrencesNone(front, j);
      }
    }
  }

  // ---------------------------------------------------------------------------
  // What setting and deleting a header does

  /** After `self[a] = v`, looking up any case variant `b` of `a` gives `v`. */
  lemma LookupIgnoresCase(s: Store, a: string, b: string, v: string)
    requires CaseVariants(a, b)
    ensures s.Update(HeaderName(a), Some(v)).Lookup(HeaderName(b).nameInLowercase) == Some(v)
  {
    NameEquality(a, b);
  }

  /**
   * Setting a name that is not in the table appends exactly one entry at the end,
   * keeps every earlier entry in place, and grows `count` by one.
   */
  lemma SetNewName(s: Store, key: HeaderName, v: string)
    requires key.nameInLowercase !in s.headers
    ensures s.Update(key, Some(v)).orderHeaders == s.orderHeaders + [(key, v)]
    ensures s.Update(key, Some(v)).Count() == s.Count() + 1
    ensures s.Update(key, Some(v)).Lookup(key.nameInLowercase) == Some(v)
  {
  }

  /**
   * Setting a name other than Set-Cookie that is already present: its old entry
   * goes, the new one is last, it is the only entry of that name, the other
   * entries keep their order, and neither the list length nor `count` changes.
   */
  lemma SetPresentName(s: Store, key: HeaderName, v: string)
    requires Inv(s)
    requires key.nameInLowercase in s.headers && !IsSetCookie(key)
    ensures var t := s.Update(key, Some(v));
      && |t.orderHeaders| == |s.orderHeaders|
      && t.orderHeaders[|t.orderHeaders| - 1] == (key, v)
      && Occurrences(t.orderHeaders, key.nameInLowercase) == 1
      && Others(t.orderHeaders, key.nameInLowercase) == Others(s.orderHeaders, key.nameInLowercase)
      && t.Count() == s.Count()
      && t.Lookup(key.nameInLowercase) == Some(v)
  {
    var k := key.nameInLowercase;
    var kept := RemoveFirst(s.orderHeaders, k);
    assert Occurrences(s.orderHeaders, k) == 1;
    RemoveFirstOccurrences(s.orderHeaders, k, k);
    RemoveFirstOthers(s.orderHeaders, k);
    RemoveFirstLength(s.orderHeaders, k);
    AppendEffect(kept, (key, v));
    OthersAppend(kept, [(key, v)], k);
    assert s.headers[k := v].Keys == s.headers.Keys;
  }

  /**
   * Setting Set-Cookie appends and never removes an earlier Set-Cookie entry;
   * the getter then gives the newest value and `count` counts Set-Cookie once.
   */
  lemma SetCookieAppends(s: Store, key: HeaderName, v: string)
    requires IsSetCookie(key)
    ensures var t := s.Update(key, Some(v));
      && t.orderHeaders == s.orderHeaders + [(key, v)]
      && Occurrences(t.orderHeaders, SetCookie) == Occurrences(s.orderHeaders, SetCookie) + 1
      && t.Lookup(SetCookie) == Some(v)
      && t.Count() == (if SetCookie in s.headers then s.Count() else s.Count() + 1)
  {
    AppendEffect(s.orderHeaders, (key, v));
    if SetCookie in s.headers {
      assert s.headers[SetCookie := v].Keys == s.headers.Keys;
    }
  }

  /**
   * Setting `nil` drops the name from the table and only the first of its
   * entries from the list; everything else in the list stays, in order.
   */
  lemma DeleteName(s: Store, key: HeaderName)
    ensures var t := s.Update(key, None);
      && t.Lookup(key.nameInLowercase) == None
      && t.Count() == (if key.nameInLowercase in s.headers then s.Count() - 1 else s.Count())
      && Occurrences(t.orderHeaders, key.nameInLowercase)
           == (if Occurrences(s.orderHeaders, key.nameInLowercase) > 0 then Occurrences(s.orderHeaders, key.nameInLowercase) - 1 else 0)
      && Others(t.orderHeaders, key.nameInLowercase) == Others(s.orderHeaders, key.nameInLowercase)
      && (forall j :: j != key.nameInLowercase ==> t.Lookup(j) == s.Lookup(j))
      && (FirstIndex(s.orderHeaders, key.nameInLowercase).None? ==> t.orderHeaders == s.orderHeaders)
      && (FirstIndex(s.orderHeaders, key.nameInLowercase).Some? ==>
            var i := FirstIndex(s.orderHeaders, key.nameInLowercase).value;
            t.orderHeaders == s.orderHeaders[..i] + s.orderHeaders[i + 1..])
  {
    RemoveFirstOccurrences(s.orderHeaders, key.nameInLowercase, key.nameInLowercase);
    RemoveFirstOthers(s.orderHeaders, key.nameInLowercase);
  }

  /** Deleting a name that is neither in the table nor in the list changes nothing. */
  lemma DeleteAbsentName(s: Store, key: HeaderName)
    requires key.nameInLowercase !in s.headers
    requires Occurrences(s.orderHeaders, key.nameInLowercase) == 0
    ensures s.Update(key, None) == s
  {
    OccurrencesNone(s.orderHeaders, key.nameInLowercase);
    assert s.headers - {key.nameInLowercase} == s.headers;
  }

  /** Under the invariant, a name other than Set-Cookie that the getter does not know has no entry to delete. */
  lemma DeleteAbsentOrdinaryName(s: Store, key: HeaderName)
    requires Inv(s)
    requires key.nameInLowercase !in s.headers && !IsSetCookie(key)
    ensures s.Update(key, None) == s
  {
    assert Occurrences(s.orderHeaders, key.nameInLowercase) == 0;
    DeleteAbsentName(s, key);
  }

  /**
   * Set-Cookie twice, then `nil`: the getter says there is no Set-Cookie while
   * the order list, which is public, still holds the second one.
   */
  lemma DeleteSetCookieKeepsLaterEntry(key: HeaderName, a: string, b: string)
    requires IsSetCookie(key)
    ensures var t := Store(map[], []).Update(key, Some(a)).Update(key, Some(b)).Update(key, None);
      && t.Lookup(SetCookie) == None
      && t.orderHeaders == [(key, b)]
  {
    var s2 := Store(map[], []).Update(key, Some(a)).Update(key, Some(b));
    assert s2.orderHeaders == [(key, a), (key, b)];
    assert FirstIndex(s2.orderHeaders, SetCookie) == Some(0);
  }

  /** `HTTPHeaderName("Set-Cookie")` is the Set-Cookie name. */
  lemma SetCookieSpelling()
    ensures IsSetCookie(HeaderName("Set-Cookie"))
  {
    var n := HeaderName("Set-Cookie");
    assert n.nameInLowercase == SetCookie by {
      forall i | 0 <= i < |SetCookie| ensures n.nameInLowercase[i] == SetCookie[i] {
      }
    }
  }

  /** Under the invariant `count` never exceeds the number of entries in the order list. */
  lemma CountAtMostEntries(s: Store)
    requires Inv(s)
    ensures |s.headers| <= |s.orderHeaders|
  {
    forall k | k in s.headers ensures k in NamesOf(s.orderHeaders) {
      LastValueFound(s.orderHeaders, k);
      OccurrencesNamed(s.orderHeaders, k);
    }
    assert s.headers.Keys <= NamesOf(s.orderHeaders);
    NamesBound(s.orderHeaders);
    SubsetCard(s.headers.Keys, NamesOf(s.orderHeaders));
  }

  lemma TableNoLargerThanList(s: Store)
    ensures Inv(s) ==> |s.headers| <= |s.orderHeaders|
  {
    if Inv(s) {
      CountAtMostEntries(s);
    }
  }

  function NamesOf(order: seq<Entry>): set<string> {
    set i | 0 <= i < |order| :: NameOf(order[i])
  }

  lemma OccurrencesNamed(order: seq<Entry>, k: string)
    requires Occurrences(order, k) > 0
    ensures k in NamesOf(order)
  {
    OccurrencesNone(order, k);
    var i :| 0 <= i < |order| && NameOf(order[i]) == k;
  }

  lemma {:induction false} NamesBound(order: seq<Entry>)
    ensures |NamesOf(order)| <= |order|
  {
    if order != [] {
      var n := |order| - 1;
      NamesBound(order[..n]);
      assert NamesOf(order) == NamesOf(order[..n]) + {NameOf(order[n])} by {
        forall x | x in NamesOf(order) ensures x in NamesOf(order[..n]) + {NameOf(order[n])} {
          var i :| 0 <= i < |order| && NameOf(order[i]) == x;
          if i < n { assert order[..n][i] == order[i]; }
        }
      }
    }
  }

  lemma SubsetCard(a: set<string>, b: set<string>)
    requires a <= b
    ensures |a| <= |b|
  {
    assert b == a + (b - a);
  }

  // ---------------------------------------------------------------------------
  // The class

  class HTTPHeaders {
    var headers: map<string, string>
    var orderHeaders: seq<Entry>

    function Model(): Store
      reads this
    {
      Store(headers, orderHeaders)
    }

    ghost predicate Valid()
      reads this
    {
      Inv(Model())
    }

    /**
     * `init(_:)`: the table is the given dictionary at once, then each entry is
     * set through the setter, in the dictionary's iteration order (the order of
     * `initial` here).
     */
    constructor (initial: seq<Entry>)
      requires DistinctNames(initial)
      ensures Valid()
      ensures headers == TableOf(initial) && orderHeaders == initial
    {
      headers := TableOf(initial);
      orderHeaders := [];
      new;
      for i := 0 to |initial|
        invariant headers == TableOf(initial) && orderHeaders == initial[..i]
      {
        var e := initial[i];
        TableOfEntry(initial, i);
        assert FirstIndex(orderHeaders, NameOf(e)) == None by {
          forall j | 0 <= j < i ensures NameOf(orderHeaders[j]) != NameOf(e) {
            assert orderHeaders[j] == initial[j];
          }
        }
        UpdateOrderHeader(e.0, Some(e.1));
        assert headers == TableOf(initial);
        assert orderHeaders == initial[..i + 1];
      }
      assert initial[..|initial|] == initial;
      InitInv(initial);
    }

    /** `count`: the size of the table, never more than the entries of the list. */
    function Count(): (n: nat)
      reads this
      ensures Valid() ==> n <= |orderHeaders|
    {
      Model().Count()
    }

    /** `subscript(key: String)` getter. */
    function Get(key: string): (r: Option<string>)
      reads this
      ensures r == Model().Lookup(Lower(key))
    {
      if Lower(key) in headers then Some(headers[Lower(key)]) else None
    }

    /** `subscript(key: HTTPHeaderName)` getter. */
    function GetName(key: HeaderName): (r: Option<string>)
      reads this
      ensures r == Model().Lookup(key.nameInLowercase)
    {
      if key.nameInLowercase in headers then Some(headers[key.nameInLowercase]) else None
    }

    /** `subscript(key: String)` setter (`nil` deletes). */
    method Set(key: string, newValue: Option<string>)
      requires Valid()
      modifies this
      ensures Valid()
      ensures Model() == old(Model()).Update(HeaderName(key), newValue)
    {
      UpdatePreservesInv(Model(), HeaderName(key), newValue);
      UpdateOrderHeader(HeaderName(key), newValue);
    }

    /** `subscript(key: HTTPHeaderName)` setter (`nil` deletes). */
    method SetName(key: HeaderName, newValue: Option<string>)
      requires Valid()
      modifies this
      ensures Valid()
      ensures Model() == old(Model()).Update(key, newValue)
    {
      UpdatePreservesInv(Model(), key, newValue);
      UpdateOrderHeader(key, newValue);
    }

    /** `updateOrderHeader(with:newValue:)`, editing both fields in place. */
    method UpdateOrderHeader(key: HeaderName, newValue: Option<string>)
      modifies this
      ensures Model() == old(Model()).Update(key, newValue)
    {
      var k := key.nameInLowercase;
      if newValue.Some? {
        var isContain := k in headers;
        if isContain && !IsSetCookie(key) {
          var index := FirstIndex(orderHeaders, k);
          if index.Some? {
            orderHeaders := orderHeaders[..index.value] + orderHeaders[index.value + 1..];
          }
        }
        headers := headers[k := newValue.value];
        orderHeaders := orderHeaders + [(key, newValue.value)];
      } else {
        headers := headers - {k};
        var index := FirstIndex(orderHeaders, k);
        if index.Some? {
          orderHeaders := orderHeaders[..index.value] + orderHeaders[index.value + 1..];
        }
      }
    }
  }
}
