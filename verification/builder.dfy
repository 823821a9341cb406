/** The litprog builder's output: the captured lines of every document, in
    toctree order, written as one text. */
module Builder {
  import opened SnippetStore
  import opened TocOrder
  import opened Directive

  /** The line separator the woven text uses. */
  const Newline: string := "\n"

  /** `sep.join(ls)`: the lines with `sep` between neighbours. */
  function Join(ls: seq<Line>, sep: string): string
  {
    if ls == [] then ""
    else if |ls| == 1 then ls[0]
    else ls[0] + sep + Join(ls[1..], sep)
  }

  /** One document's contribution: its lines joined by newlines with one
      more newline after them, or nothing when it has no lines. */
  function Block(ls: seq<Line>): string
  {
    if |ls| > 0 then Join(ls, Newline) + Newline else ""
  }

  /** The independent reading of the output: every line followed by its own
      newline. */
  function Terminated(ls: seq<Line>): string
  {
    if ls == [] then "" else ls[0] + Newline + Terminated(ls[1..])
  }

  /** The lines of the documents in `order`, one document after another. */
  function AllLines(store: Store, order: seq<DocName>): seq<Line>
  {
    if order == [] then []
    else AllLines(store, order[..|order| - 1]) + Lines(store, order[|order| - 1])
  }

  /** The text written for the documents in `order`. */
  function Emit(store: Store, order: seq<DocName>): string
  {
    if order == [] then ""
    else Emit(store, order[..|order| - 1]) + Block(Lines(store, order[|order| - 1]))
  }

  /** A document without an entry adds nothing to the text: the builder
      reads it as an empty list and writes nothing for it. */
  lemma MissingEntryAddsNothing(store: Store, order: seq<DocName>, d: DocName)
    requires d !in store
    ensures Emit(store, order + [d]) == Emit(store, order)
  {
  }

  /** Joining lines by newlines and adding one newline is the same as ending
      every line with a newline. */
  lemma {:induction false} JoinTerminated(ls: seq<Line>)
    requires ls != []
    ensures Join(ls, Newline) + Newline == Terminated(ls)
  {
    if |ls| > 1 {
      JoinTerminated(ls[1..]);
      assert Join(ls, Newline) + Newline == ls[0] + Newline + (Join(ls[1..], Newline) + Newline);
    } else {
      assert ls[1..] == [];
    }
  }

  /** A block is its lines, each ended by a newline; an empty list gives
      nothing. */
  lemma BlockTerminated(ls: seq<Line>)
    ensures Block(ls) == Terminated(ls)
  {
    if ls != [] {
      JoinTerminated(ls);
    }
  }

  lemma {:induction false} TerminatedAppend(a: seq<Line>, b: seq<Line>)
    ensures Terminated(a + b) == Terminated(a) + Terminated(b)
  {
    if a != [] {
      assert (a + b)[0] == a[0];
      assert (a + b)[1..] == a[1..] + b;
      TerminatedAppend(a[1..], b);
      assert Terminated(a + b) == a[0] + Newline + (Terminated(a[1..]) + Terminated(b));
    } else {
      assert a + b == b;
    }
  }

  /** The text written for `order` is every captured line of those
      documents, in order, each ended by a newline; documents without lines
      add nothing. */
  lemma {:induction false} EmitTerminated(store: Store, order: seq<DocName>)
    ensures Emit(store, order) == Terminated(AllLines(store, order))
  {
    if order != [] {
      var init := order[..|order| - 1];
      var ls := Lines(store, order[|order| - 1]);
      EmitTerminated(store, init);
      BlockTerminated(ls);
      TerminatedAppend(AllLines(store, init), ls);
    }
  }

  /** The text written for `order` depends only on the entries of the
      documents in `order`. */
  lemma {:induction false} EmitLocal(store: Store, other: Store, order: seq<DocName>)
    requires forall i :: 0 <= i < |order| ==> Lines(store, order[i]) == Lines(other, order[i])
    ensures Emit(store, order) == Emit(other, order)
  {
    if order != [] {
      EmitLocal(store, other, order[..|order| - 1]);
    }
  }

  /** The woven text of a build: the text written for the toctree walk from
      the master document. */
  ghost function Weave(store: Store, includes: Includes, rank: map<DocName, nat>, master: DocName): string
    requires Ranked(includes, rank)
  {
    Emit(store, Tree(includes, rank, master))
  }

  /** Writes the lines of each document of `order`, in order, skipping the
      documents with no lines: every captured line ends up followed by a
      newline. */
  method WriteInOrder(store: Store, order: seq<DocName>) returns (text: string)
    ensures text == Emit(store, order)
    ensures text == Terminated(AllLines(store, order))
  {
    text := "";
    var i := 0;
    while i < |order|
      invariant 0 <= i <= |order|
      invariant text == Emit(store, order[..i])
    {
      var docSnippets := Lines(store, order[i]);
      if |docSnippets| > 0 {
        text := text + Join(docSnippets, Newline) + Newline;
      }
      assert order[..i + 1][..i] == order[..i];
      i := i + 1;
    }
    assert order[..i] == order;
    EmitTerminated(store, order);
  }

  /** The builder's finish step: fetches the store (attaching an empty one if
      none exists) and writes the lines of each document of the walk, in
      walk order. The text is returned instead of being written to the
      output file. */
  method Finish(env: Env, includes: Includes, master: DocName, ghost rank: map<DocName, nat>)
    returns (env': Env, text: string)
    requires Ranked(includes, rank) && master in rank
    ensures env' == GetSnippets(env).0
    ensures text == Weave(GetSnippets(env).1, includes, rank, master)
    ensures text == Terminated(AllLines(GetSnippets(env).1, Tree(includes, rank, master)))
  {
    var store;
    env', store := GetSnippets(env).0, GetSnippets(env).1;
    var order := DocnamesInTocOrder(includes, master, rank);
    text := WriteInOrder(store, order);
  }

  /** A document that cannot be reached from the master document adds
      nothing to the woven text, whatever lines it holds, and dropping its
      entry changes nothing either. */
  lemma WeaveIgnoresUnreachable(store: Store, includes: Includes, rank: map<DocName, nat>,
                                master: DocName, x: DocName, ls: seq<Line>)
    requires Ranked(includes, rank) && master in rank
    requires !Reachable(includes, master, x)
    ensures Weave(store[x := ls], includes, rank, master) == Weave(store, includes, rank, master)
    ensures Weave(store - {x}, includes, rank, master) == Weave(store, includes, rank, master)
  {
    var order := Tree(includes, rank, master);
    forall i | 0 <= i < |order|
      ensures order[i] != x
    {
      TreeReachable(includes, rank, master, order[i]);
    }
    EmitLocal(store[x := ls], store, order);
    EmitLocal(store - {x}, store, order);
  }

  /** A line is among the lines of `order` exactly when some document of
      `order` holds it. */
  lemma {:induction false} AllLinesMember(store: Store, order: seq<DocName>, l: Line)
    ensures l in AllLines(store, order) <==>
      exists i :: 0 <= i < |order| && l in Lines(store, order[i])
  {
    if order != [] {
      var init := order[..|order| - 1];
      AllLinesMember(store, init, l);
      if l in AllLines(store, init) {
        var i :| 0 <= i < |init| && l in Lines(store, init[i]);
        assert order[i] == init[i];
      }
      if exists i :: 0 <= i < |order| && l in Lines(store, order[i]) {
        var i :| 0 <= i < |order| && l in Lines(store, order[i]);
        if i < |init| {
          assert init[i] == order[i];
        }
      }
    }
  }

  /** A line is woven exactly when some document reachable from the master
      document holds it, whether or not its block was hidden. */
  lemma WovenLinesReachable(store: Store, includes: Includes, rank: map<DocName, nat>,
                            master: DocName, l: Line)
    requires Ranked(includes, rank) && master in rank
    ensures l in AllLines(store, Tree(includes, rank, master)) <==>
      exists x :: Reachable(includes, master, x) && l in Lines(store, x)
  {
    var order := Tree(includes, rank, master);
    AllLinesMember(store, order, l);
    TreeReachableAll(includes, rank, master);
    if exists x :: Reachable(includes, master, x) && l in Lines(store, x) {
      var x :| Reachable(includes, master, x) && l in Lines(store, x);
      var i :| 0 <= i < |order| && order[i] == x;
    }
  }
}
