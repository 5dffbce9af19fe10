/** The commit graph under a repository: a commit's identity fixes its parents, and generations bound them. */
module CommitGraph {
  type Id = string

  datatype Graph = Graph(parents: Id -> set<Id>, generation: Id -> nat)

  ghost predicate Acyclic(g: Graph) {
    forall c, p :: p in g.parents(c) ==> g.generation(p) < g.generation(c)
  }

  /** A commit and all its ancestors. */
  function History(g: Graph, c: Id): (h: set<Id>)
    requires Acyclic(g)
    ensures c in h
    decreases g.generation(c)
  {
    {c} + set p, a | p in g.parents(c) && a in History(g, p) :: a
  }

  function HistoryOf(g: Graph, commits: set<Id>): set<Id>
    requires Acyclic(g)
  {
    set c, a | c in commits && a in History(g, c) :: a
  }

  predicate Closed(g: Graph, objects: set<Id>) {
    forall c :: c in objects ==> g.parents(c) <= objects
  }

  lemma {:induction false} HistoryIsClosed(g: Graph, c: Id)
    requires Acyclic(g)
    ensures Closed(g, History(g, c))
    decreases g.generation(c)
  {
    forall a | a in History(g, c) ensures g.parents(a) <= History(g, c) {
      if a == c {
        forall p | p in g.parents(c) ensures p in History(g, c) {
          assert p in History(g, p);
        }
      } else {
        var p :| p in g.parents(c) && a in History(g, p);
        HistoryIsClosed(g, p);
      }
    }
  }

  /** History is the least closed set around a commit. */
  lemma {:induction false} ClosedContainsHistory(g: Graph, objects: set<Id>, c: Id)
    requires Acyclic(g) && Closed(g, objects) && c in objects
    ensures History(g, c) <= objects
    decreases g.generation(c)
  {
    forall p | p in g.parents(c) ensures History(g, p) <= objects {
      ClosedContainsHistory(g, objects, p);
    }
  }
}
