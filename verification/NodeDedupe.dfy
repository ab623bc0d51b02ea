/**
 * Collapsing definitions of one name, such as overload stubs, into one node
 * (backend/app/graph/builder.py:771-797).
 */
module NodeDedupe {
  import opened CodeGraph

  /** `body` stands for everything the definition carries besides its signature. */
  datatype Definition = Definition(qn: Name, signature: string, overloads: seq<string>, body: string)

  /** The names defined, by first occurrence. */
  function NamesIn(ds: seq<Definition>): (names: seq<Name>)
    ensures NoDuplicates(names)
    ensures forall q :: q in names <==> exists d :: d in ds && d.qn == q
  {
    if ds == [] then []
    else
      var (names, d) := (NamesIn(ds[..|ds| - 1]), ds[|ds| - 1]);
      assert ds == ds[..|ds| - 1] + [d];
      if d.qn in names then names else names + [d.qn]
  }

  /** The last definition of a name. */
  function Winner(ds: seq<Definition>, q: Name): (d: Definition)
    requires q in NamesIn(ds)
    ensures d in ds && d.qn == q
  {
    if ds[|ds| - 1].qn == q then ds[|ds| - 1] else Winner(ds[..|ds| - 1], q)
  }

  /** Every signature given to a name, in order. */
  function Signatures(ds: seq<Definition>, q: Name): seq<string> {
    if ds == [] then []
    else Signatures(ds[..|ds| - 1], q) + if ds[|ds| - 1].qn == q then SignatureOf(ds[|ds| - 1]) else []
  }

  function SignatureOf(d: Definition): seq<string> {
    if d.signature == "" then [] else [d.signature]
  }

  /** `result` has one definition per name, the last, in order of first occurrence, and loses no signature. */
  ghost predicate Deduped(ds: seq<Definition>, result: seq<Definition>) {
    && |result| == |NamesIn(ds)|
    && forall i :: 0 <= i < |result| ==> Merged(ds, NamesIn(ds)[i], result[i])
  }

  function Shown(shadowed: map<Name, seq<string>>, q: Name): seq<string> {
    if q in shadowed then shadowed[q] else []
  }

  ghost predicate CollectedAt(ds: seq<Definition>, byQn: map<Name, Definition>, shadowed: map<Name, seq<string>>,
                              q: Name) {
    && (q in byQn <==> q in NamesIn(ds)) && (q in shadowed ==> q in byQn)
    && (q in byQn ==> byQn[q] == Winner(ds, q) && Shown(shadowed, q) + SignatureOf(byQn[q]) == Signatures(ds, q))
  }

  ghost predicate Collected(ds: seq<Definition>, order: seq<Name>, byQn: map<Name, Definition>,
                            shadowed: map<Name, seq<string>>) {
    order == NamesIn(ds) && forall q :: CollectedAt(ds, byQn, shadowed, q)
  }

  lemma UnnamedHasNoSignature(ds: seq<Definition>, q: Name)
    requires q !in NamesIn(ds)
    ensures Signatures(ds, q) == []
  {
    if ds != [] {
      UnnamedHasNoSignature(ds[..|ds| - 1], q);
    }
  }

  /** The signatures shadowed once a new definition follows: that of the definition it replaces is the newest. */
  function Shadow(byQn: map<Name, Definition>, shadowed: map<Name, seq<string>>, q: Name): map<Name, seq<string>> {
    if q in byQn && byQn[q].signature != "" then shadowed[q := Shown(shadowed, q) + [byQn[q].signature]] else shadowed
  }

  lemma Unfold(ds: seq<Definition>, d: Definition, q: Name)
    ensures NamesIn(ds + [d]) == if d.qn in NamesIn(ds) then NamesIn(ds) else NamesIn(ds) + [d.qn]
    ensures q in NamesIn(ds + [d]) ==> Winner(ds + [d], q) == if q == d.qn then d else Winner(ds, q)
    ensures Signatures(ds + [d], q) == Signatures(ds, q) + if q == d.qn then SignatureOf(d) else []
  {
    assert (ds + [d])[..|ds + [d]| - 1] == ds;
  }

  lemma OneMoreAt(ds: seq<Definition>, byQn: map<Name, Definition>, shadowed: map<Name, seq<string>>, d: Definition,
                  q: Name)
    requires CollectedAt(ds, byQn, shadowed, q)
    ensures CollectedAt(ds + [d], byQn[d.qn := d], Shadow(byQn, shadowed, d.qn), q)
  {
    hide NamesIn, Winner, Signatures;
    Unfold(ds, d, q);
    if q == d.qn && q !in byQn {
      UnnamedHasNoSignature(ds, q);
    }
  }

  lemma OneMoreDefinition(ds: seq<Definition>, order: seq<Name>, byQn: map<Name, Definition>,
                          shadowed: map<Name, seq<string>>,
                          d: Definition)
    requires Collected(ds, order, byQn, shadowed)
    ensures Collected(ds + [d], if d.qn in byQn then order else order + [d.qn], byQn[d.qn := d],
                      Shadow(byQn, shadowed, d.qn))
  {
    hide NamesIn, Winner, Signatures, Shadow;
    assert CollectedAt(ds, byQn, shadowed, d.qn);
    Unfold(ds, d, d.qn);
    var ds', byQn', shadowed' := ds + [d], byQn[d.qn := d], Shadow(byQn, shadowed, d.qn);
    forall q
      ensures CollectedAt(ds', byQn', shadowed', q)
    {
      OneMoreAt(ds, byQn, shadowed, d, q);
    }
  }

  method Collect(nodes: seq<Definition>)
    returns (order: seq<Name>, byQn: map<Name, Definition>, shadowed: map<Name, seq<string>>)
    ensures Collected(nodes, order, byQn, shadowed)
  {
    hide Collected;
    order, byQn, shadowed := [], map[], map[];
    NothingCollected();
    for i := 0 to |nodes|
      invariant Collected(nodes[..i], order, byQn, shadowed)
    {
      var node := nodes[i];
      OneMoreDefinition(nodes[..i], order, byQn, shadowed, node);
      assert nodes[..i + 1] == nodes[..i] + [node];
      if node.qn in byQn {
        var prev := byQn[node.qn];
        if prev.signature != "" {
          shadowed := shadowed[node.qn := Shown(shadowed, node.qn) + [prev.signature]];
        }
      } else {
        order := order + [node.qn];
      }
      byQn := byQn[node.qn := node];
    }
    assert nodes[..|nodes|] == nodes;
  }

  lemma NothingCollected()
    ensures Collected([], [], map[], map[])
  {
  }

  method DedupeNodesByQualifiedName(nodes: seq<Definition>) returns (result: seq<Definition>)
    ensures Deduped(nodes, result)
  {
    hide NamesIn, Winner, Signatures, SignatureOf;
    var order, byQn, shadowed := Collect(nodes);
    result := [];
    for i := 0 to |order|
      invariant |result| == i
      invariant forall j :: 0 <= j < i ==> Merged(nodes, order[j], result[j])
    {
      assert CollectedAt(nodes, byQn, shadowed, order[i]);
      var node := byQn[order[i]];
      MergedDefinition(nodes, byQn, shadowed, order[i]);
      if node.qn !in shadowed {
        assert node.overloads + [] == node.overloads;
        result := result + [node];
      } else {
        result := result + [node.(overloads := node.overloads + shadowed[node.qn])];
      }
    }
  }

  /** The last definition of `q`, its overloads followed by the signatures it shadows. */
  ghost predicate Merged(ds: seq<Definition>, q: Name, r: Definition) {
    && q in NamesIn(ds) && r == Winner(ds, q).(overloads := r.overloads)
    && r.overloads + SignatureOf(r) == Winner(ds, q).overloads + Signatures(ds, q)
  }

  lemma MergedDefinition(ds: seq<Definition>, byQn: map<Name, Definition>, shadowed: map<Name, seq<string>>, q: Name)
    requires CollectedAt(ds, byQn, shadowed, q) && q in byQn
    ensures Merged(ds, q, byQn[q].(overloads := byQn[q].overloads + Shown(shadowed, q)))
  {
    hide NamesIn, Winner, Signatures;
    var d := byQn[q];
    assert (d.overloads + Shown(shadowed, q)) + SignatureOf(d) == d.overloads + (Shown(shadowed, q) + SignatureOf(d));
  }

  ghost predicate AllDistinct(ds: seq<Definition>) {
    forall j, k :: 0 <= j < k < |ds| ==> ds[j].qn != ds[k].qn
  }

  lemma LastIsNew(ds: seq<Definition>)
    requires ds != [] && AllDistinct(ds)
    ensures AllDistinct(ds[..|ds| - 1]) && ds[|ds| - 1].qn !in NamesIn(ds[..|ds| - 1])
  {
    assert forall d :: d in ds[..|ds| - 1] ==> d.qn != ds[|ds| - 1].qn;
  }

  lemma {:induction false} DistinctNamesIn(ds: seq<Definition>, i: nat)
    requires AllDistinct(ds) && i < |ds|
    ensures |NamesIn(ds)| == |ds| && NamesIn(ds)[i] == ds[i].qn && Winner(ds, ds[i].qn) == ds[i]
    ensures Signatures(ds, ds[i].qn) == SignatureOf(ds[i])
  {
    hide NamesIn, Winner, Signatures, SignatureOf, AllDistinct;
    var m := |ds| - 1;
    var init := ds[..m];
    assert ds == init + [ds[m]];
    LastIsNew(ds);
    Unfold(init, ds[m], ds[i].qn);
    if i == m {
      UnnamedHasNoSignature(init, ds[m].qn);
      if m > 0 {
        DistinctNamesIn(init, 0);
      } else {
        NoNames();
      }
    } else {
      NamedElsewhere(ds, i);
      DistinctNamesIn(init, i);
    }
  }

  lemma NoNames()
    ensures NamesIn([]) == []
  {
  }

  lemma NamedElsewhere(ds: seq<Definition>, i: nat)
    requires AllDistinct(ds) && i < |ds| - 1
    ensures ds[i].qn != ds[|ds| - 1].qn && ds[..|ds| - 1][i] == ds[i]
  {
  }

  /** Names that are distinct already are left alone; so a second pass changes nothing. */
  lemma DistinctUntouched(ds: seq<Definition>, result: seq<Definition>)
    requires AllDistinct(ds) && Deduped(ds, result)
    ensures result == ds
  {
    if ds != [] {
      DistinctNamesIn(ds, 0);
    }
    forall i | 0 <= i < |ds| && i < |result|
      ensures result[i] == ds[i]
    {
      DistinctNamesIn(ds, i);
      SameTail(result[i].overloads, ds[i].overloads, SignatureOf(ds[i]));
    }
  }

  lemma SameTail(a: seq<string>, b: seq<string>, t: seq<string>)
    requires a + t == b + t
    ensures a == b
  {
    assert |a| == |b|;
    assert a == (a + t)[..|a|] && b == (b + t)[..|b|];
  }

  // ---- Order ----

  /** Position `a` is the first at which `q` is defined. */
  ghost predicate FirstAt(ds: seq<Definition>, q: Name, a: nat) {
    a < |ds| && ds[a].qn == q && forall b :: 0 <= b < a ==> ds[b].qn != q
  }

  ghost predicate LastAt(ds: seq<Definition>, q: Name, a: nat) {
    a < |ds| && ds[a].qn == q && forall b :: a < b < |ds| ==> ds[b].qn != q
  }

  lemma {:induction false} FirstOf(ds: seq<Definition>, i: nat) returns (a: nat)
    requires i < |NamesIn(ds)|
    ensures FirstAt(ds, NamesIn(ds)[i], a)
  {
    var m := |ds| - 1;
    var init := ds[..m];
    if i < |NamesIn(init)| {
      a := FirstOf(init, i);
      assert forall b :: 0 <= b < |init| ==> init[b] == ds[b];
    } else {
      a := m;
      assert forall b :: 0 <= b < m ==> ds[b] in init;
    }
  }

  /** Names are listed in the order in which they are first defined. */
  lemma {:induction false} NamesInOrder(ds: seq<Definition>, i: nat, k: nat, a: nat, b: nat)
    requires i < k < |NamesIn(ds)| && FirstAt(ds, NamesIn(ds)[i], a) && FirstAt(ds, NamesIn(ds)[k], b)
    ensures a < b
  {
    var m := |ds| - 1;
    var init := ds[..m];
    assert forall c :: 0 <= c < m ==> init[c] == ds[c];
    if k < |NamesIn(init)| {
      var a' := FirstOf(init, i);
      var b' := FirstOf(init, k);
      assert ds[a'].qn == NamesIn(ds)[i] && ds[b'].qn == NamesIn(ds)[k];
      NamesInOrder(init, i, k, a, b);
    } else {
      var a' := FirstOf(init, i);
      assert ds[a'].qn == NamesIn(ds)[i];
      forall c | 0 <= c < m
        ensures ds[c].qn != NamesIn(ds)[k]
      {
        assert ds[c] in init;
      }
    }
  }

  lemma {:induction false} WinnerIsLast(ds: seq<Definition>, q: Name) returns (a: nat)
    requires q in NamesIn(ds)
    ensures LastAt(ds, q, a) && Winner(ds, q) == ds[a]
  {
    var m := |ds| - 1;
    if ds[m].qn == q {
      a := m;
    } else {
      a := WinnerIsLast(ds[..m], q);
      assert forall c :: 0 <= c < m ==> ds[..m][c] == ds[c];
    }
  }

  /**
   * The definitions that are kept come in the order in which their names first occurred, and each
   * carries what the last definition of its name does.
   */
  lemma DedupedInOrder(ds: seq<Definition>, result: seq<Definition>, i: nat, k: nat, a: nat, b: nat, c: nat)
    requires Deduped(ds, result) && i < k < |result|
    requires FirstAt(ds, result[i].qn, a) && FirstAt(ds, result[k].qn, b) && LastAt(ds, result[i].qn, c)
    ensures a < b && result[i] == ds[c].(overloads := result[i].overloads)
  {
    assert Merged(ds, NamesIn(ds)[i], result[i]) && Merged(ds, NamesIn(ds)[k], result[k]);
    NamesInOrder(ds, i, k, a, b);
    var last := WinnerIsLast(ds, result[i].qn);
    assert last == c;
  }

  /** Signatures are collected in order: those of a first part, then those of the rest. */
  lemma {:induction false} SignaturesInOrder(first: seq<Definition>, rest: seq<Definition>, q: Name)
    ensures Signatures(first + rest, q) == Signatures(first, q) + Signatures(rest, q)
    ensures forall d: Definition :: Signatures([d], q) == if d.qn == q && d.signature != "" then [d.signature] else []
  {
    if rest == [] {
      assert first + rest == first;
    } else {
      var m := |rest| - 1;
      assert (first + rest)[..|first + rest| - 1] == first + rest[..m];
      SignaturesInOrder(first, rest[..m], q);
    }
  }

  lemma DedupedNamesDistinct(ds: seq<Definition>, result: seq<Definition>)
    requires Deduped(ds, result)
    ensures AllDistinct(result)
  {
    forall j, k | 0 <= j < k < |result|
      ensures result[j].qn != result[k].qn
    {
      assert NamesIn(ds)[j] != NamesIn(ds)[k];
    }
  }
}
