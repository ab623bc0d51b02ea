/**
 * The tables of the code graph (backend/app/models/code_node.py, code_edge.py).
 *
 * A node row is kept apart from its derived columns: parents, callers and callees are maps of
 * their own.  An edge row is identified by source, type and target name, the table's unique
 * key, and holds the node it is bound to, if any.
 */
module CodeGraph {
  import opened Wrappers

  type Id = nat
  type Name = string
  type Path = string

  predicate EndsWith(s: string, suffix: string) {
    |suffix| <= |s| && s[|s| - |suffix|..] == suffix
  }

  datatype Kind = Module | Method | Other

  datatype Node = Node(path: Path, key: string, qn: Name, kind: Kind, name: string)

  datatype EdgeType = Calls | Imports | Inherits | Declares

  datatype EdgeKey = EdgeKey(source: Id, etype: EdgeType, target: Name)

  type Nodes = map<Id, Node>
  type Edges = map<EdgeKey, Option<Id>>
  type Lists = map<Id, seq<Id>>
  type Pair = (Id, Id)

  /** The unique index on qualified names. */
  ghost predicate NamesUnique(nodes: Nodes) {
    forall a, b :: a in nodes && b in nodes && nodes[a].qn == nodes[b].qn ==> a == b
  }

  /** Caller and callee of every bound call. */
  function CallPairs(edges: Edges): set<Pair> {
    set k | k in edges && k.etype.Calls? && edges[k].Some? :: (k.source, edges[k].value)
  }

  function CalleesOf(pairs: set<Pair>, n: Id): set<Id> {
    set p | p in pairs && p.0 == n :: p.1
  }

  function CallersOf(pairs: set<Pair>, n: Id): set<Id> {
    set p | p in pairs && p.1 == n :: p.0
  }

  ghost predicate NoDuplicates<T(!new)>(l: seq<T>) {
    forall i, j :: 0 <= i < j < |l| ==> l[i] != l[j]
  }

  /** `l` lists `s`, each element once. */
  ghost predicate ListsOnce<T(!new)>(l: seq<T>, s: set<T>) {
    NoDuplicates(l) && forall x :: x in l <==> x in s
  }

  /** The stored lists of node `n` are its callees and callers. */
  ghost predicate ExactAt(callees: Lists, callers: Lists, pairs: set<Pair>, n: Id) {
    && n in callees && n in callers
    && ListsOnce(callees[n], CalleesOf(pairs, n))
    && ListsOnce(callers[n], CallersOf(pairs, n))
  }

  ghost predicate ArraysExact(callees: Lists, callers: Lists, pairs: set<Pair>, live: set<Id>) {
    forall n :: n in live ==> ExactAt(callees, callers, pairs, n)
  }
}
