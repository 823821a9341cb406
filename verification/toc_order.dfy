/** The depth-first walk of the toctree include map that fixes the order in
    which documents contribute to the woven file. */
module TocOrder {
  import opened SnippetStore

  /** Which documents each document includes, in declared order. */
  type Includes = map<DocName, seq<DocName>>

  /** A document's children; a document with no entry has none. */
  function Children(includes: Includes, doc: DocName): (cs: seq<DocName>)
    ensures doc !in includes ==> cs == []
  {
    if doc in includes then includes[doc] else []
  }

  /** `rank` witnesses that the include map is acyclic from its keys on:
      every child of a ranked document is ranked strictly lower. Only the
      part reachable from the ranked documents is constrained. */
  ghost predicate Ranked(includes: Includes, rank: map<DocName, nat>)
  {
    forall d, c :: d in rank && c in Children(includes, d) ==> c in rank && rank[c] < rank[d]
  }

  ghost predicate AllRanked(rank: map<DocName, nat>, ds: seq<DocName>)
  {
    forall d :: d in ds ==> d in rank
  }

  /** The termination measure of a walk from `doc`. */
  ghost function Height(rank: map<DocName, nat>, doc: DocName): nat
  {
    if doc in rank then rank[doc] + 1 else 0
  }

  /** The greatest height among `ds`, and 0 when it is empty. */
  ghost function MaxHeight(rank: map<DocName, nat>, ds: seq<DocName>): nat
  {
    if ds == [] then 0
    else
      var h := Height(rank, ds[|ds| - 1]);
      var rest := MaxHeight(rank, ds[..|ds| - 1]);
      if h > rest then h else rest
  }

  /** Reference order of the walk from `doc`: the document itself, then the
      walks from its children, last-declared child first. A document outside
      the witness is yielded alone; the walk from a ranked document never
      meets one. */
  ghost function Tree(includes: Includes, rank: map<DocName, nat>, doc: DocName): (r: seq<DocName>)
    requires Ranked(includes, rank)
    ensures |r| >= 1 && r[0] == doc
    ensures doc in rank && doc !in includes ==> r == [doc]
    decreases Height(rank, doc), 0
  {
    if doc in rank then
      var cs := Children(includes, doc);
      ChildrenBelow(includes, rank, doc, cs);
      [doc] + Subtrees(includes, rank, cs)
    else
      [doc]
  }

  /** The walks from each of `ds`, taken from the last one to the first,
      as a stack with its top at the end of `ds` yields them. */
  ghost function Subtrees(includes: Includes, rank: map<DocName, nat>, ds: seq<DocName>): (r: seq<DocName>)
    requires Ranked(includes, rank)
    ensures |r| >= |ds|
    decreases MaxHeight(rank, ds), |ds|
  {
    if ds == [] then []
    else Tree(includes, rank, ds[|ds| - 1]) + Subtrees(includes, rank, ds[..|ds| - 1])
  }

  /** Every child of a ranked document is ranked, and lower. */
  lemma {:induction false} ChildrenBelow(includes: Includes, rank: map<DocName, nat>, doc: DocName, cs: seq<DocName>)
    requires Ranked(includes, rank) && doc in rank
    requires forall c :: c in cs ==> c in Children(includes, doc)
    ensures AllRanked(rank, cs) && MaxHeight(rank, cs) <= rank[doc]
  {
    if cs != [] {
      ChildrenBelow(includes, rank, doc, cs[..|cs| - 1]);
    }
  }

  /** The walks from a stack `a + b` are those from `b`, then those from `a`. */
  lemma {:induction false} SubtreesAppend(includes: Includes, rank: map<DocName, nat>, a: seq<DocName>, b: seq<DocName>)
    requires Ranked(includes, rank)
    ensures Subtrees(includes, rank, a + b)
      == Subtrees(includes, rank, b) + Subtrees(includes, rank, a)
  {
    if b == [] {
      assert a + b == a;
    } else {
      var init := b[..|b| - 1];
      assert (a + b)[|a + b| - 1] == b[|b| - 1];
      assert (a + b)[..|a + b| - 1] == a + init;
      SubtreesAppend(includes, rank, a, init);
    }
  }

  /** A document occurs in the walks from `ds` exactly when it occurs in the
      walk from one of them. */
  lemma {:induction false} SubtreesMember(includes: Includes, rank: map<DocName, nat>, ds: seq<DocName>, x: DocName)
    requires Ranked(includes, rank)
    ensures x in Subtrees(includes, rank, ds) <==>
      exists i :: 0 <= i < |ds| && x in Tree(includes, rank, ds[i])
  {
    if ds != [] {
      var init := ds[..|ds| - 1];
      SubtreesMember(includes, rank, init, x);
      if x in Subtrees(includes, rank, init) {
        var i :| 0 <= i < |init| && x in Tree(includes, rank, init[i]);
        assert x in Tree(includes, rank, ds[i]);
      }
      if exists i :: 0 <= i < |ds| && x in Tree(includes, rank, ds[i]) {
        var i :| 0 <= i < |ds| && x in Tree(includes, rank, ds[i]);
        if i < |ds| - 1 {
          assert init[i] == ds[i];
        }
      }
    }
  }

  /** `p` follows include edges from its first document to its last. */
  ghost predicate IsPath(includes: Includes, p: seq<DocName>)
  {
    |p| >= 1 && forall i :: 0 <= i < |p| - 1 ==> p[i + 1] in Children(includes, p[i])
  }

  /** `to` can be reached from `from` through the include map. */
  ghost predicate Reachable(includes: Includes, from: DocName, to: DocName)
  {
    exists p :: IsPath(includes, p) && p[0] == from && p[|p| - 1] == to
  }

  /** Every document the walk from `doc` yields is reachable from `doc`. */
  lemma {:induction false} TreeSound(includes: Includes, rank: map<DocName, nat>, doc: DocName, x: DocName)
    requires Ranked(includes, rank)
    requires x in Tree(includes, rank, doc)
    ensures Reachable(includes, doc, x)
    decreases Height(rank, doc)
  {
    if x == doc {
      assert IsPath(includes, [doc]);
    } else {
      var cs := Children(includes, doc);
      SubtreesMember(includes, rank, cs, x);
      var i :| 0 <= i < |cs| && x in Tree(includes, rank, cs[i]);
      var c := cs[i];
      TreeSound(includes, rank, c, x);
      var p :| IsPath(includes, p) && p[0] == c && p[|p| - 1] == x;
      PrependPath(includes, doc, p);
    }
  }

  /** A path from a child of `doc` extends to a path from `doc`. */
  lemma PrependPath(includes: Includes, doc: DocName, p: seq<DocName>)
    requires IsPath(includes, p) && p[0] in Children(includes, doc)
    ensures IsPath(includes, [doc] + p)
    ensures ([doc] + p)[0] == doc && ([doc] + p)[|p|] == p[|p| - 1]
  {
    var q := [doc] + p;
    forall j | 0 <= j < |q| - 1
      ensures q[j + 1] in Children(includes, q[j])
    {
      if j > 0 {
        assert q[j] == p[j - 1] && q[j + 1] == p[j];
      }
    }
  }

  /** The walk from a ranked `doc` yields the last document of every path
      that starts at `doc`. */
  lemma {:induction false} TreeComplete(includes: Includes, rank: map<DocName, nat>, doc: DocName, p: seq<DocName>)
    requires Ranked(includes, rank) && doc in rank
    requires IsPath(includes, p) && p[0] == doc
    ensures p[|p| - 1] in Tree(includes, rank, doc)
    decreases |p|
  {
    if |p| > 1 {
      var kids := Children(includes, doc);
      var c := p[1];
      var k :| 0 <= k < |kids| && kids[k] == c;
      var rest := p[1..];
      forall j | 0 <= j < |rest| - 1
        ensures rest[j + 1] in Children(includes, rest[j])
      {
        assert rest[j] == p[j + 1] && rest[j + 1] == p[j + 2];
      }
      TreeComplete(includes, rank, c, rest);
      SubtreesMember(includes, rank, kids, p[|p| - 1]);
    }
  }

  /** The walk from a ranked `doc` yields exactly the documents reachable
      from it. */
  lemma TreeReachable(includes: Includes, rank: map<DocName, nat>, doc: DocName, x: DocName)
    requires Ranked(includes, rank) && doc in rank
    ensures x in Tree(includes, rank, doc) <==> Reachable(includes, doc, x)
  {
    if x in Tree(includes, rank, doc) {
      TreeSound(includes, rank, doc, x);
    }
    if Reachable(includes, doc, x) {
      var p :| IsPath(includes, p) && p[0] == doc && p[|p| - 1] == x;
      TreeComplete(includes, rank, doc, p);
    }
  }

  /** Popping `d` off the top of a stack `p + [d]`: the walk from `d`
      comes first, then the walks from the rest of the stack. */
  lemma SubtreesPop(includes: Includes, rank: map<DocName, nat>, p: seq<DocName>, d: DocName)
    requires Ranked(includes, rank)
    ensures Subtrees(includes, rank, p + [d])
      == Tree(includes, rank, d) + Subtrees(includes, rank, p)
  {
    assert (p + [d])[..|p + [d]| - 1] == p;
  }

  /** One step of the stack walk: popping `d` off `p + [d]` and pushing its
      children leaves the same remaining order, less `d` itself. */
  lemma PopExtend(includes: Includes, rank: map<DocName, nat>, p: seq<DocName>, d: DocName)
    requires Ranked(includes, rank) && AllRanked(rank, p) && d in rank
    ensures AllRanked(rank, p + Children(includes, d))
    ensures Subtrees(includes, rank, p + [d])
      == [d] + Subtrees(includes, rank, p + Children(includes, d))
  {
    var kids := Children(includes, d);
    ChildrenBelow(includes, rank, d, kids);
    SubtreesPop(includes, rank, p, d);
    SubtreesAppend(includes, rank, p, kids);
    var t := Subtrees(includes, rank, kids);
    var u := Subtrees(includes, rank, p);
    assert Tree(includes, rank, d) == [d] + t;
    ConcatAssoc([d], t, u);
  }

  lemma ConcatAssoc<T>(a: seq<T>, b: seq<T>, c: seq<T>)
    ensures a + b + c == a + (b + c)
  {
  }

  /** Yields every document of the toctree, depth first from the master
      document, using an explicit stack: the last pushed document is popped
      first, so children come out in reverse of their declared order. */
  method DocnamesInTocOrder(includes: Includes, master: DocName, ghost rank: map<DocName, nat>)
    returns (order: seq<DocName>)
    requires Ranked(includes, rank) && master in rank
    ensures order == Tree(includes, rank, master)
    ensures |order| >= 1 && order[0] == master
    ensures forall i :: 0 <= i < |order| ==> Reachable(includes, master, order[i])
    ensures forall x :: Reachable(includes, master, x) ==> x in order
    ensures master !in includes ==> order == [master]
  {
    var stack := [master];
    order := [];
    ghost var whole := Tree(includes, rank, master);
    SubtreesPop(includes, rank, [], master);
    assert [] + [master] == stack;
    while stack != []
      invariant AllRanked(rank, stack)
      invariant order + Subtrees(includes, rank, stack) == whole
      decreases |whole| - |order|
    {
      var d := stack[|stack| - 1];
      var p := stack[..|stack| - 1];
      assert stack == p + [d];
      PopExtend(includes, rank, p, d);
      ConcatAssoc(order, [d], Subtrees(includes, rank, p + Children(includes, d)));
      order := order + [d];
      stack := p + Children(includes, d);
    }
    TreeReachableAll(includes, rank, master);
  }

  /** The walk from a ranked `doc` yields exactly the documents reachable
      from it, stated for all documents at once. */
  lemma TreeReachableAll(includes: Includes, rank: map<DocName, nat>, doc: DocName)
    requires Ranked(includes, rank) && doc in rank
    ensures forall i :: 0 <= i < |Tree(includes, rank, doc)| ==>
      Reachable(includes, doc, Tree(includes, rank, doc)[i])
    ensures forall x :: Reachable(includes, doc, x) ==> x in Tree(includes, rank, doc)
  {
    var order := Tree(includes, rank, doc);
    forall i | 0 <= i < |order|
      ensures Reachable(includes, doc, order[i])
    {
      TreeReachable(includes, rank, doc, order[i]);
    }
    forall x | Reachable(includes, doc, x)
      ensures x in order
    {
      TreeReachable(includes, rank, doc, x);
    }
  }

  /** A document with two children yields the second child's walk before
      the first child's. */
  lemma TwoChildrenReversed(includes: Includes, rank: map<DocName, nat>, doc: DocName, a: DocName, b: DocName)
    requires Ranked(includes, rank) && doc in rank
    requires Children(includes, doc) == [a, b]
    ensures Tree(includes, rank, doc)
      == [doc] + Tree(includes, rank, b) + Tree(includes, rank, a)
  {
    var kids := [a, b];
    assert kids[..1] == [a];
    assert [a][..0] == [];
    assert Subtrees(includes, rank, [a]) == Tree(includes, rank, a);
    assert Subtrees(includes, rank, kids)
      == Tree(includes, rank, b) + Subtrees(includes, rank, [a]);
  }

  /** A document included from two parents is yielded once per parent. */
  lemma DiamondYieldsTwice()
    ensures var includes := map["index" := ["a", "b"], "a" := ["c"], "b" := ["c"]];
            var rank := map["index" := 2, "a" := 1, "b" := 1, "c" := 0];
            Ranked(includes, rank) &&
            Tree(includes, rank, "index") == ["index", "b", "c", "a", "c"]
  {
    var includes := map["index" := ["a", "b"], "a" := ["c"], "b" := ["c"]];
    var rank := map["index" := 2, "a" := 1, "b" := 1, "c" := 0];
    assert Ranked(includes, rank);
    assert Tree(includes, rank, "c") == ["c"];
    assert Tree(includes, rank, "a") == ["a", "c"] by {
      assert ["c"][..0] == [];
    }
    assert Tree(includes, rank, "b") == ["b", "c"] by {
      assert ["c"][..0] == [];
    }
    TwoChildrenReversed(includes, rank, "index", "a", "b");
  }
}
