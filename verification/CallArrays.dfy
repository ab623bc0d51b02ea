/**
 * Maintaining the `callers`/`callees` arrays (backend/app/graph/builder.py:647-768).
 */
module CallArrays {
  import opened CodeGraph
  import opened Chunking

  // ---- Swapping entries in a peer's list ----

  /** The elements of `l` that are not stale, or are stale but fresh again, in their order. */
  function Kept(l: seq<Id>, stale: set<Id>, freshIds: seq<Id>): seq<Id> {
    if l == [] then []
    else
      var rest := Kept(l[1..], stale, freshIds);
      if l[0] !in stale || l[0] in freshIds then [l[0]] + rest else rest
  }

  function NotIn(l: seq<Id>, present: seq<Id>): seq<Id> {
    if l == [] then []
    else if l[0] in present then NotIn(l[1..], present)
    else [l[0]] + NotIn(l[1..], present)
  }

  function Swapped(current: seq<Id>, stale: set<Id>, freshIds: seq<Id>): seq<Id> {
    var kept := Kept(current, stale, freshIds);
    kept + NotIn(freshIds, kept)
  }

  lemma {:induction false} KeptElements(l: seq<Id>, stale: set<Id>, freshIds: seq<Id>)
    ensures forall x :: x in Kept(l, stale, freshIds) <==> x in l && (x !in stale || x in freshIds)
    ensures NoDuplicates(l) ==> NoDuplicates(Kept(l, stale, freshIds))
  {
    if l != [] {
      KeptElements(l[1..], stale, freshIds);
      assert l == [l[0]] + l[1..];
    }
  }

  lemma {:induction false} NotInElements(l: seq<Id>, present: seq<Id>)
    ensures forall x :: x in NotIn(l, present) <==> x in l && x !in present
    ensures NoDuplicates(l) ==> NoDuplicates(NotIn(l, present))
  {
    if l != [] {
      NotInElements(l[1..], present);
      assert l == [l[0]] + l[1..];
    }
  }

  lemma NoDuplicatesConcat<T(!new)>(a: seq<T>, b: seq<T>)
    requires NoDuplicates(a) && NoDuplicates(b) && forall x :: x in a ==> x !in b
    ensures NoDuplicates(a + b)
  {
    forall i, j | 0 <= i < j < |a + b|
      ensures (a + b)[i] != (a + b)[j]
    {
      if i < |a| <= j {
        assert a[i] in a && b[j - |a|] in b;
      }
    }
  }

  /** A swapped list loses the stale entries, gains the fresh ones, and repeats nothing. */
  lemma SwappedElements(l: seq<Id>, stale: set<Id>, freshIds: seq<Id>)
    requires NoDuplicates(l) && NoDuplicates(freshIds)
    ensures NoDuplicates(Swapped(l, stale, freshIds))
    ensures forall x :: x in Swapped(l, stale, freshIds) <==> (x in l && x !in stale) || x in freshIds
  {
    KeptElements(l, stale, freshIds);
    NotInElements(freshIds, Kept(l, stale, freshIds));
    NoDuplicatesConcat(Kept(l, stale, freshIds), NotIn(freshIds, Kept(l, stale, freshIds)));
  }

  /** `x` comes before `y` in `s`. */
  ghost predicate Before(s: seq<Id>, x: Id, y: Id) {
    exists a, b :: 0 <= a < b < |s| && s[a] == x && s[b] == y
  }

  lemma BeforeIn(s: seq<Id>, a: nat, b: nat)
    requires a < b < |s|
    ensures Before(s, s[a], s[b])
  {
  }

  lemma BeforeTail(head: seq<Id>, s: seq<Id>, x: Id, y: Id)
    requires Before(s, x, y)
    ensures Before(head + s, x, y)
  {
    var a, b :| 0 <= a < b < |s| && s[a] == x && s[b] == y;
    BeforeIn(head + s, |head| + a, |head| + b);
  }

  lemma BeforeHead(s: seq<Id>, tail: seq<Id>, x: Id, y: Id)
    requires Before(s, x, y)
    ensures Before(s + tail, x, y)
  {
    var a, b :| 0 <= a < b < |s| && s[a] == x && s[b] == y;
    BeforeIn(s + tail, a, b);
  }

  lemma BeforeAcross(s: seq<Id>, t: seq<Id>, x: Id, y: Id)
    requires x in s && y in t
    ensures Before(s + t, x, y)
  {
    var a :| 0 <= a < |s| && s[a] == x;
    var b :| 0 <= b < |t| && t[b] == y;
    BeforeIn(s + t, a, |s| + b);
  }

  lemma SplitBefore(s: seq<Id>, x: Id, y: Id)
    requires Before(s, x, y)
    ensures Before(s[1..], x, y) || (x == s[0] && y in s[1..])
  {
    var a, b :| 0 <= a < b < |s| && s[a] == x && s[b] == y;
    if a == 0 {
      assert s[1..][b - 1] == y;
    } else {
      BeforeIn(s[1..], a - 1, b - 1);
    }
  }

  lemma {:induction false} KeptBefore(l: seq<Id>, stale: set<Id>, freshIds: seq<Id>, x: Id, y: Id)
    requires Before(l, x, y) && (x !in stale || x in freshIds) && (y !in stale || y in freshIds)
    ensures Before(Kept(l, stale, freshIds), x, y)
  {
    SplitBefore(l, x, y);
    var rest := Kept(l[1..], stale, freshIds);
    if Before(l[1..], x, y) {
      KeptBefore(l[1..], stale, freshIds, x, y);
      BeforeTail([l[0]], rest, x, y);
    } else {
      KeptElements(l[1..], stale, freshIds);
      BeforeAcross([l[0]], rest, x, y);
    }
  }

  lemma {:induction false} NotInBefore(l: seq<Id>, present: seq<Id>, x: Id, y: Id)
    requires Before(l, x, y) && x !in present && y !in present
    ensures Before(NotIn(l, present), x, y)
  {
    SplitBefore(l, x, y);
    var rest := NotIn(l[1..], present);
    if Before(l[1..], x, y) {
      NotInBefore(l[1..], present, x, y);
      BeforeTail([l[0]], rest, x, y);
    } else {
      NotInElements(l[1..], present);
      BeforeAcross([l[0]], rest, x, y);
    }
  }

  /** Surviving entries keep their order, and new ones follow them in theirs. */
  lemma SwappedInOrder(l: seq<Id>, stale: set<Id>, freshIds: seq<Id>, x: Id, y: Id)
    ensures Before(l, x, y) && (x !in stale || x in freshIds) && (y !in stale || y in freshIds) ==>
              Before(Swapped(l, stale, freshIds), x, y)
    ensures x in l && (x !in stale || x in freshIds) && y in freshIds && y !in l ==>
              Before(Swapped(l, stale, freshIds), x, y)
    ensures Before(freshIds, x, y) && x !in l && y !in l ==> Before(Swapped(l, stale, freshIds), x, y)
  {
    hide Before;
    var kept := Kept(l, stale, freshIds);
    var added := NotIn(freshIds, kept);
    KeptElements(l, stale, freshIds);
    NotInElements(freshIds, kept);
    if Before(l, x, y) && (x !in stale || x in freshIds) && (y !in stale || y in freshIds) {
      KeptBefore(l, stale, freshIds, x, y);
      BeforeHead(kept, added, x, y);
    }
    if x in l && (x !in stale || x in freshIds) && y in freshIds && y !in l {
      BeforeAcross(kept, added, x, y);
    }
    if Before(freshIds, x, y) && x !in l && y !in l {
      NotInBefore(freshIds, kept, x, y);
      BeforeTail(kept, added, x, y);
    }
  }

  lemma {:induction false} KeptAll(l: seq<Id>, stale: set<Id>, freshIds: seq<Id>)
    requires forall x :: x in l && x in stale ==> x in freshIds
    ensures Kept(l, stale, freshIds) == l
  {
    if l != [] {
      KeptAll(l[1..], stale, freshIds);
    }
  }

  lemma {:induction false} NotInNone(l: seq<Id>, present: seq<Id>)
    requires forall x :: x in l ==> x in present
    ensures NotIn(l, present) == []
  {
    if l != [] {
      assert l[0] in l;
      NotInNone(l[1..], present);
    }
  }

  /** A peer whose entries for the stale nodes are unchanged keeps its list, order included. */
  lemma SwappedUnchanged(l: seq<Id>, stale: set<Id>, freshIds: seq<Id>)
    requires forall x :: x in stale ==> (x in l <==> x in freshIds)
    requires forall x :: x in freshIds ==> x in l
    ensures Swapped(l, stale, freshIds) == l
  {
    KeptAll(l, stale, freshIds);
    NotInNone(freshIds, l);
  }

  // ---- What one rebuild does to the lists of a node ----

  /** The calls the two sweeps find: those that start or end in `touched`. */
  function Swept(pairs: set<Pair>, touched: set<Id>): set<Pair> {
    set p | p in pairs && (p.0 in touched || p.1 in touched)
  }

  /** Calls between rows the rebuild was given. */
  function Between(pairs: set<Pair>, given: set<Id>): set<Pair> {
    set p | p in pairs && p.0 in given && p.1 in given
  }

  /** A touched node is listed afresh, a peer has its entries swapped, any other node is left alone. */
  ghost predicate Relisted(before: seq<Id>, after: seq<Id>, found: set<Id>, n: Id,
                           given: set<Id>, touched: set<Id>, peers: set<Id>, dropped: set<Id>) {
    if n in given && n in peers then
      exists freshIds :: ListsOnce(freshIds, found) && after == Swapped(before, touched + dropped, freshIds)
    else if n in given && n in touched then ListsOnce(after, found)
    else after == before
  }

  ghost predicate Rebuilt(callees: Lists, callers: Lists, callees': Lists, callers': Lists, pairs: set<Pair>,
                          given: set<Id>, touched: set<Id>, peers: set<Id>, dropped: set<Id>) {
    var found := Between(Swept(pairs, touched), given);
    && callees'.Keys == callees.Keys && callers'.Keys == callers.Keys
    && (forall n :: n in callees ==>
          Relisted(callees[n], callees'[n], CalleesOf(found, n), n, given, touched, peers, dropped))
    && (forall n :: n in callers ==>
          Relisted(callers[n], callers'[n], CallersOf(found, n), n, given, touched, peers, dropped))
  }

  ghost predicate Changed(before: set<Pair>, after: set<Pair>, p: Pair) {
    (p in before) != (p in after)
  }

  ghost predicate ChangedAt(before: set<Pair>, after: set<Pair>, n: Id) {
    exists p :: Changed(before, after, p) && (p.0 == n || p.1 == n)
  }

  /** The premises of the scoped rebuild: what was true before, and which calls may have changed. */
  ghost predicate ScopedChange(before: set<Pair>, after: set<Pair>, live: set<Id>, touched: set<Id>, dropped: set<Id>) {
    && live !! dropped
    && (forall p :: p in before ==> p.0 in live + dropped && p.1 in live + dropped)
    && (forall p :: p in after ==> p.0 in live && p.1 in live)
    && (forall p :: Changed(before, after, p) ==> p.0 in touched + dropped || p.1 in touched + dropped)
  }

  lemma SwapIsExact(l: seq<Id>, freshIds: seq<Id>, before: set<Id>, after: set<Id>, stale: set<Id>, found: set<Id>)
    requires ListsOnce(l, before) && ListsOnce(freshIds, found)
    requires forall x :: x in found <==> x in after && x in stale
    requires forall x :: x !in stale ==> (x in before <==> x in after)
    ensures ListsOnce(Swapped(l, stale, freshIds), after)
  {
    SwappedElements(l, stale, freshIds);
  }

  /**
   * A scoped rebuild leaves a node's lists exact if and only if the node was among the
   * touched nodes and their peers, or no call at it changed.
   */
  lemma ScopedRebuildExactIff(callees: Lists, callers: Lists, callees': Lists, callers': Lists,
                              before: set<Pair>, after: set<Pair>, live: set<Id>,
                              touched: set<Id>, peers: set<Id>, dropped: set<Id>, n: Id)
    requires ScopedChange(before, after, live, touched, dropped) && touched !! peers
    requires n in live && ExactAt(callees, callers, before, n)
    requires Rebuilt(callees, callers, callees', callers', after, live, touched, peers, dropped)
    ensures ExactAt(callees', callers', after, n) <==> (n in touched || n in peers || !ChangedAt(before, after, n))
  {
    var found := Between(Swept(after, touched), live);
    var stale := touched + dropped;
    if n in peers {
      forall x
        ensures x in CalleesOf(found, n) <==> x in CalleesOf(after, n) && x in stale
        ensures x in CallersOf(found, n) <==> x in CallersOf(after, n) && x in stale
      {
        assert (n, x) in found <==> (n, x) in after && (n in touched || x in touched);
        assert (x, n) in found <==> (x, n) in after && (n in touched || x in touched);
      }
      forall x | x !in stale
        ensures x in CalleesOf(before, n) <==> x in CalleesOf(after, n)
        ensures x in CallersOf(before, n) <==> x in CallersOf(after, n)
      {
        assert !Changed(before, after, (n, x)) && !Changed(before, after, (x, n));
      }
      var fresh1 :| ListsOnce(fresh1, CalleesOf(found, n)) && callees'[n] == Swapped(callees[n], stale, fresh1);
      var fresh2 :| ListsOnce(fresh2, CallersOf(found, n)) && callers'[n] == Swapped(callers[n], stale, fresh2);
      SwapIsExact(callees[n], fresh1, CalleesOf(before, n), CalleesOf(after, n), stale, CalleesOf(found, n));
      SwapIsExact(callers[n], fresh2, CallersOf(before, n), CallersOf(after, n), stale, CallersOf(found, n));
    } else if n in touched {
      TouchedIsExact(callees, callers, callees', callers', after, live, touched, peers, dropped, n);
    } else {
      UntouchedExactIff(callees, callers, before, after, n);
    }
  }

  /**
   * If the ends of every changed call are touched, peers or dropped, save for some nodes that are
   * missed, then a node comes out exact unless it is one of those and neither touched nor a peer.
   */
  lemma ExactUnlessMissed(callees: Lists, callers: Lists, callees': Lists, callers': Lists,
                          before: set<Pair>, after: set<Pair>, live: set<Id>,
                          touched: set<Id>, peers: set<Id>, dropped: set<Id>, missed: set<Id>, n: Id)
    requires ScopedChange(before, after, live, touched, dropped) && touched !! peers
    requires n in live && ExactAt(callees, callers, before, n)
    requires Rebuilt(callees, callers, callees', callers', after, live, touched, peers, dropped)
    requires forall p :: Changed(before, after, p) ==>
               p.0 in touched + peers + dropped + missed && p.1 in touched + peers + dropped + missed
    requires n in missed ==> ChangedAt(before, after, n)
    ensures ExactAt(callees', callers', after, n) <==> n in touched || n in peers || n !in missed
  {
    ScopedRebuildExactIff(callees, callers, callees', callers', before, after, live, touched, peers, dropped, n);
  }

  /** A touched node is exact whatever its lists held before. */
  lemma TouchedIsExact(callees: Lists, callers: Lists, callees': Lists, callers': Lists, after: set<Pair>,
                       live: set<Id>,
                       touched: set<Id>, peers: set<Id>, dropped: set<Id>, n: Id)
    requires n in live && n in touched && n !in peers && n in callees && n in callers
    requires forall p :: p in after ==> p.0 in live && p.1 in live
    requires Rebuilt(callees, callers, callees', callers', after, live, touched, peers, dropped)
    ensures ExactAt(callees', callers', after, n)
  {
    var found := Between(Swept(after, touched), live);
    assert CalleesOf(found, n) == CalleesOf(after, n);
    assert CallersOf(found, n) == CallersOf(after, n);
  }

  lemma UntouchedExactIff(callees: Lists, callers: Lists, before: set<Pair>, after: set<Pair>, n: Id)
    requires ExactAt(callees, callers, before, n)
    ensures ExactAt(callees, callers, after, n) <==> !ChangedAt(before, after, n)
  {
    if !ChangedAt(before, after, n) {
      forall x: Id
        ensures (n, x) in before <==> (n, x) in after
        ensures (x, n) in before <==> (x, n) in after
      {
        assert !Changed(before, after, (n, x)) && !Changed(before, after, (x, n));
      }
      assert CalleesOf(before, n) == CalleesOf(after, n);
      assert CallersOf(before, n) == CallersOf(after, n);
    } else {
      var p :| Changed(before, after, p) && (p.0 == n || p.1 == n);
      if p.0 == n {
        assert (p.1 in CalleesOf(before, n)) != (p.1 in CalleesOf(after, n));
      } else {
        assert (p.0 in CallersOf(before, n)) != (p.0 in CallersOf(after, n));
      }
    }
  }

  // ---- The refresh after deletions, as written ----

  /**
   * `rebuild_relationships_scoped` loads only the touched rows (backend/app/graph/builder.py:573-590),
   * so calls to or from any other row are dropped.  A touched node comes out exact if and only
   * if all its callers and callees were touched too.
   */
  lemma RefreshOfLoadedRowsExactIff(callees: Lists, callers: Lists, callees': Lists, callers': Lists,
                                    pairs: set<Pair>, live: set<Id>, touched: set<Id>, n: Id)
    requires n in live && n in touched && n in callees && n in callers
    requires forall p :: p in pairs ==> p.0 in live && p.1 in live
    requires Rebuilt(callees, callers, callees', callers', pairs, touched * live, touched, {}, {})
    ensures ExactAt(callees', callers', pairs, n)
            <==> CalleesOf(pairs, n) <= touched && CallersOf(pairs, n) <= touched
  {
    var found := Between(Swept(pairs, touched), touched * live);
    forall x: Id
      ensures x in CalleesOf(found, n) <==> x in CalleesOf(pairs, n) && x in touched
      ensures x in CallersOf(found, n) <==> x in CallersOf(pairs, n) && x in touched
    {
      assert (n, x) in found <==> (n, x) in pairs && x in touched;
      assert (x, n) in found <==> (x, n) in pairs && x in touched;
    }
  }

  /** One caller outside the refreshed set is enough to lose it. */
  lemma RefreshLosesOutsideCaller(callees: Lists, callers: Lists, callees': Lists, callers': Lists)
    requires callees.Keys == callers.Keys == {1, 2}
    requires Rebuilt(callees, callers, callees', callers', {(1, 2)}, {2} * {1, 2}, {2}, {}, {})
    ensures !ExactAt(callees', callers', {(1, 2)}, 2)
  {
    assert 1 in CallersOf({(1, 2)}, 2) by { assert (1, 2) in {(1, 2)}; }
    RefreshOfLoadedRowsExactIff(callees, callers, callees', callers', {(1, 2)}, {1, 2}, {2}, 2);
  }

  // ---- The rebuild itself ----

  predicate BoundCall(edges: Edges, k: EdgeKey) {
    k in edges && k.etype.Calls? && edges[k].Some?
  }

  /** `SELECT ... WHERE source_node_id IN batch` (or target_node_id), over the bound calls. */
  function SelectBound(edges: Edges, bySource: bool, batch: seq<Id>): set<EdgeKey> {
    set k | k in edges && BoundCall(edges, k) && (if bySource then k.source in batch else edges[k].value in batch)
  }

  /** Both sweeps, batch by batch; rows are merged by edge, so none counts twice. */
  method SweepTouched(edges: Edges, touched: set<Id>) returns (found: set<EdgeKey>)
    ensures found == set k | k in edges && BoundCall(edges, k) && (k.source in touched || edges[k].value in touched)
  {
    var ids := Enumerate(touched);
    var r := Chunked(ids, IN_CHUNK_SIZE);
    var batches := r.value;
    found := {};
    for i := 0 to |batches|
      invariant forall k :: k in found <==>
                  BoundCall(edges, k) &&
                  exists b :: 0 <= b < i && (k.source in batches[b] || edges[k].value in batches[b])
    {
      found := found + SelectBound(edges, true, batches[i]) + SelectBound(edges, false, batches[i]);
    }
    forall k | BoundCall(edges, k)
      ensures k in found <==> k.source in touched || edges[k].value in touched
    {
      InSomeBatch(batches, k.source);
      InSomeBatch(batches, edges[k].value);
    }
  }

  function PairsOf(edges: Edges, keys: set<EdgeKey>): set<Pair> {
    set k | k in keys && BoundCall(edges, k) :: (k.source, edges[k].value)
  }

  /** A dict used as an ordered set: the first occurrence wins. */
  function Insert(l: seq<Id>, x: Id): seq<Id> {
    if x in l then l else l + [x]
  }

  lemma InsertLists(l: seq<Id>, s: set<Id>, x: Id)
    requires ListsOnce(l, s)
    ensures ListsOnce(Insert(l, x), s + {x})
  {
  }

  ghost predicate CalleesGrouped(lists: Lists, wanted: set<Id>, pairs: set<Pair>) {
    lists.Keys == wanted && forall n :: n in wanted ==> ListsOnce(lists[n], CalleesOf(pairs, n))
  }

  ghost predicate CallersGrouped(lists: Lists, wanted: set<Id>, pairs: set<Pair>) {
    lists.Keys == wanted && forall n :: n in wanted ==> ListsOnce(lists[n], CallersOf(pairs, n))
  }

  function InsertAt(lists: Lists, n: Id, x: Id): Lists {
    if n in lists then lists[n := Insert(lists[n], x)] else lists
  }

  lemma CalleesGrow(lists: Lists, wanted: set<Id>, pairs: set<Pair>, p: Pair)
    requires CalleesGrouped(lists, wanted, pairs)
    ensures CalleesGrouped(InsertAt(lists, p.0, p.1), wanted, pairs + {p})
  {
    forall n | n in wanted
      ensures ListsOnce(InsertAt(lists, p.0, p.1)[n], CalleesOf(pairs + {p}, n))
    {
      assert CalleesOf(pairs + {p}, n) == CalleesOf(pairs, n) + (if n == p.0 then {p.1} else {});
      InsertLists(lists[n], CalleesOf(pairs, n), p.1);
    }
  }

  lemma CallersGrow(lists: Lists, wanted: set<Id>, pairs: set<Pair>, p: Pair)
    requires CallersGrouped(lists, wanted, pairs)
    ensures CallersGrouped(InsertAt(lists, p.1, p.0), wanted, pairs + {p})
  {
    forall n | n in wanted
      ensures ListsOnce(InsertAt(lists, p.1, p.0)[n], CallersOf(pairs + {p}, n))
    {
      assert CallersOf(pairs + {p}, n) == CallersOf(pairs, n) + (if n == p.1 then {p.0} else {});
      InsertLists(lists[n], CallersOf(pairs, n), p.0);
    }
  }

  lemma OneMorePair(edges: Edges, done: set<EdgeKey>, k: EdgeKey, given: set<Id>)
    requires BoundCall(edges, k)
    ensures var p := (k.source, edges[k].value);
            Between(PairsOf(edges, done + {k}), given)
            == Between(PairsOf(edges, done), given) + (if p.0 in given && p.1 in given then {p} else {})
  {
    var p := (k.source, edges[k].value);
    assert PairsOf(edges, done + {k}) == PairsOf(edges, done) + {p};
  }

  /** Distribute the calls found over the wanted nodes, skipping calls with an end outside `given`. */
  method GroupPairs(edges: Edges, found: set<EdgeKey>, given: set<Id>, wanted: set<Id>)
    returns (callees: Lists, callers: Lists)
    requires forall k :: k in found ==> BoundCall(edges, k)
    ensures CalleesGrouped(callees, wanted, Between(PairsOf(edges, found), given))
    ensures CallersGrouped(callers, wanted, Between(PairsOf(edges, found), given))
  {
    callees, callers := map n | n in wanted :: [], map n | n in wanted :: [];
    var rest := found;
    ghost var pairs: set<Pair> := {};
    while rest != {}
      invariant rest <= found && pairs == Between(PairsOf(edges, found - rest), given)
      invariant CalleesGrouped(callees, wanted, pairs) && CallersGrouped(callers, wanted, pairs)
      decreases rest
    {
      var k :| k in rest;
      var s, t := k.source, edges[k].value;
      OneMorePair(edges, found - rest, k, given);
      assert found - (rest - {k}) == found - rest + {k};
      rest := rest - {k};
      if s in given && t in given {
        CalleesGrow(callees, wanted, pairs, (s, t));
        CallersGrow(callers, wanted, pairs, (s, t));
        callees := InsertAt(callees, s, t);
        callers := InsertAt(callers, t, s);
        pairs := pairs + {(s, t)};
      }
    }
    assert found - rest == found;
  }

  /** Write the new lists back: touched nodes as found, peers with their entries swapped. */
  method WriteBack(lists: Lists, fresh': Lists, reset: set<Id>, peers: set<Id>, stale: set<Id>)
    returns (lists': Lists)
    requires reset + peers <= lists.Keys && fresh'.Keys == reset + peers
    ensures lists'.Keys == lists.Keys
    ensures forall n :: n in lists ==>
              lists'[n] == if n in peers then Swapped(if n in reset then fresh'[n] else lists[n], stale, fresh'[n])
                           else if n in reset then fresh'[n]
                           else lists[n]
  {
    lists' := lists;
    var rest := reset;
    while rest != {}
      invariant rest <= reset && lists'.Keys == lists.Keys
      invariant forall n :: n in lists ==> lists'[n] == if n in reset - rest then fresh'[n] else lists[n]
      decreases rest
    {
      var n :| n in rest;
      lists' := lists'[n := fresh'[n]];
      rest := rest - {n};
    }
    ghost var middle := lists';
    rest := peers;
    while rest != {}
      invariant rest <= peers && lists'.Keys == lists.Keys
      invariant forall n :: n in lists ==>
                  lists'[n] == if n in peers - rest then Swapped(middle[n], stale, fresh'[n]) else middle[n]
      decreases rest
    {
      var n :| n in rest;
      lists' := lists'[n := Swapped(lists'[n], stale, fresh'[n])];
      rest := rest - {n};
    }
  }

  /**
   * The scoped rebuild of `_rebuild_back_compat_arrays`.  `given` are the rows the caller
   * loaded; calls with an end outside them are ignored.
   */
  method RebuildScoped(edges: Edges, callees: Lists, callers: Lists,
                       given: set<Id>, touched: set<Id>, peers: set<Id>, dropped: set<Id>)
    returns (callees': Lists, callers': Lists)
    requires given <= callees.Keys && given <= callers.Keys && touched !! peers
    ensures touched != {} ==>
              Rebuilt(callees, callers, callees', callers', CallPairs(edges), given, touched, peers, dropped)
    ensures touched == {} ==> callees' == callees && callers' == callers
  {
    if touched == {} {
      return callees, callers;
    }
    var reset, alongside := touched * given, peers * given;
    var found := SweepTouched(edges, touched);
    assert PairsOf(edges, found) == Swept(CallPairs(edges), touched);
    var newCallees, newCallers := GroupPairs(edges, found, given, reset + alongside);
    var stale := touched + dropped;
    callees' := WriteBack(callees, newCallees, reset, alongside, stale);
    callers' := WriteBack(callers, newCallers, reset, alongside, stale);
  }

  /** The full rebuild: every row given is listed afresh from every bound call. */
  method RebuildAll(edges: Edges, callees: Lists, callers: Lists, given: set<Id>)
    returns (callees': Lists, callers': Lists)
    requires given <= callees.Keys && given <= callers.Keys
    ensures callees'.Keys == callees.Keys && callers'.Keys == callers.Keys
    ensures ArraysExact(callees', callers', Between(CallPairs(edges), given), given)
  {
    var bound := set k | k in edges && BoundCall(edges, k);
    assert PairsOf(edges, bound) == CallPairs(edges);
    var newCallees, newCallers := GroupPairs(edges, bound, given, given);
    assert given + {} == given;
    callees' := WriteBack(callees, newCallees, given, {}, {});
    callers' := WriteBack(callers, newCallers, given, {}, {});
  }
}
