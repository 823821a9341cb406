/** Whole builds on small concrete projects: documents are purged and
    parsed, then woven. */
module Scenarios {
  import opened SnippetStore
  import opened TocOrder
  import opened Directive
  import opened Builder

  /** Purges a document and parses it again with the given occurrences, as
      the host does for every changed document. */
  function Reread(env: Env, doc: DocName, occs: seq<Occurrence>): (r: Env)
    ensures Lines(GetSnippets(r).1, doc) == Contents(occs)
    ensures forall k :: k != doc ==> Lines(GetSnippets(r).1, k) == Lines(GetSnippets(env).1, k)
  {
    ReparseAfterPurge(env, doc, occs);
    ParseDocAppends(Purge(env, doc), doc, occs);
    ParseDoc(Purge(env, doc), doc, occs)
  }

  /** The store of the two-document build: the root's two blocks, in
      order, and the child's one block. */
  lemma RootThenChildStore()
    ensures var e1 := Reread(Unattached, "index",
                             [Occurrence(["1", "2"], [], {}), Occurrence(["3", "4", "5"], [], {Hidden})]);
            var e2 := Reread(e1, "child", [Occurrence(["6"], [], {})]);
            && Lines(GetSnippets(e2).1, "index") == ["1", "2", "3", "4", "5"]
            && Lines(GetSnippets(e2).1, "child") == ["6"]
  {
    var occs := [Occurrence(["1", "2"], [], {}), Occurrence(["3", "4", "5"], [], {Hidden})];
    assert occs[..1] == [occs[0]];
    assert occs[..1][..0] == [];
    assert Contents(occs[..1]) == ["1", "2"];
    assert Contents(occs) == ["1", "2", "3", "4", "5"];
    assert [Occurrence(["6"], [], {})][..0] == [];
  }

  /** Six lines, each ended by a newline. */
  lemma SixLines()
    ensures Terminated(["1", "2", "3", "4", "5", "6"]) == "1\n2\n3\n4\n5\n6\n"
  {
    var all := ["1", "2", "3", "4", "5", "6"];
    assert Terminated(all[5..]) == "6\n";
    assert Terminated(all[4..]) == "5\n6\n";
    assert Terminated(all[3..]) == "4\n5\n6\n";
    assert Terminated(all[2..]) == "3\n4\n5\n6\n";
    assert Terminated(all[1..]) == "2\n3\n4\n5\n6\n";
  }

  /** Rereading an unchanged document gives the environment one read gave:
      the purge keeps the old lines from doubling up, and no other entry
      moves. */
  lemma RereadIdempotent(env: Env, doc: DocName, occs: seq<Occurrence>)
    ensures Reread(Reread(env, doc, occs), doc, occs) == Reread(env, doc, occs)
  {
    var once := Reread(env, doc, occs);
    var rest := GetSnippets(env).1 - {doc};
    ParseDocDomain(Purge(env, doc), doc, occs);
    assert GetSnippets(once).1 - {doc} == rest - {doc};
    assert rest - {doc} == rest;
    assert Purge(once, doc) == Purge(env, doc);
  }

  /** Parsing a document again without the purge would capture its lines
      twice. */
  lemma ParseTwiceWithoutPurge(env: Env, doc: DocName, occs: seq<Occurrence>)
    ensures Lines(GetSnippets(ParseDoc(ParseDoc(env, doc, occs), doc, occs)).1, doc)
         == Lines(GetSnippets(env).1, doc) + Contents(occs) + Contents(occs)
  {
    ParseDocAppends(env, doc, occs);
    ParseDocAppends(ParseDoc(env, doc, occs), doc, occs);
  }

  /** A root with two blocks, one of them hidden, and one included child
      with one block: the root's lines come first, the hidden block's lines
      included, then the child's. */
  lemma RootThenChild()
    ensures var e1 := Reread(Unattached, "index",
                             [Occurrence(["1", "2"], [], {}), Occurrence(["3", "4", "5"], [], {Hidden})]);
            var e2 := Reread(e1, "child", [Occurrence(["6"], [], {})]);
            var includes := map["index" := ["child"]];
            var rank := map["index" := 1, "child" := 0];
            Ranked(includes, rank) &&
            Weave(GetSnippets(e2).1, includes, rank, "index") == "1\n2\n3\n4\n5\n6\n"
  {
    var occs := [Occurrence(["1", "2"], [], {}), Occurrence(["3", "4", "5"], [], {Hidden})];
    var e1 := Reread(Unattached, "index", occs);
    var e2 := Reread(e1, "child", [Occurrence(["6"], [], {})]);
    var includes := map["index" := ["child"]];
    var rank := map["index" := 1, "child" := 0];
    var store := GetSnippets(e2).1;
    assert Ranked(includes, rank);
    RootThenChildStore();
    var order := Tree(includes, rank, "index");
    assert ["child"][..0] == [];
    assert order == ["index", "child"];
    EmitTerminated(store, order);
    assert order[..1] == ["index"];
    assert AllLines(store, ["index"]) == AllLines(store, []) + Lines(store, "index");
    assert AllLines(store, order) == ["1", "2", "3", "4", "5", "6"];
    SixLines();
  }

  /** Five lines, each ended by a newline. */
  lemma FiveLines(ls: seq<Line>, a: Line, b: Line, c: Line, d: Line, e: Line)
    requires ls == [a, b, c, d, e]
    ensures Terminated(ls) == a + "\n" + b + "\n" + c + "\n" + d + "\n" + e + "\n"
  {
    assert ls[4..][1..] == [];
    assert Terminated(ls[4..]) == e + "\n";
    assert ls[3..][1..] == ls[4..];
    assert Terminated(ls[3..]) == d + "\n" + e + "\n";
    assert ls[2..][1..] == ls[3..];
    assert Terminated(ls[2..]) == c + "\n" + d + "\n" + e + "\n";
    assert ls[1..][1..] == ls[2..];
    assert Terminated(ls[1..]) == b + "\n" + c + "\n" + d + "\n" + e + "\n";
  }

  /** The store of the three-document build. */
  lemma ReversedToctreeStore()
    ensures var e1 := Reread(Unattached, "index",
                             [Occurrence(["1", "2", "3"], [], {}), Occurrence(["4", "5"], [], {Hidden})]);
            var e2 := Reread(e1, "part1", [Occurrence(["6", "7", "8", "9", "10"], [], {})]);
            var e3 := Reread(e2, "part2", [Occurrence(["11", "12", "13", "14", "15"], [], {})]);
            && Lines(GetSnippets(e3).1, "index") == ["1", "2", "3", "4", "5"]
            && Lines(GetSnippets(e3).1, "part1") == ["6", "7", "8", "9", "10"]
            && Lines(GetSnippets(e3).1, "part2") == ["11", "12", "13", "14", "15"]
  {
    var occs := [Occurrence(["1", "2", "3"], [], {}), Occurrence(["4", "5"], [], {Hidden})];
    assert occs[..1] == [occs[0]];
    assert occs[..1][..0] == [];
    assert Contents(occs[..1]) == ["1", "2", "3"];
    assert Contents(occs) == ["1", "2", "3", "4", "5"];
    assert [Occurrence(["6", "7", "8", "9", "10"], [], {})][..0] == [];
    assert [Occurrence(["11", "12", "13", "14", "15"], [], {})][..0] == [];
  }

  /** With `part2` declared before `part1`, the walk visits `part1` first. */
  lemma ReversedToctreeOrder()
    ensures var includes := map["index" := ["part2", "part1"]];
            var rank := map["index" := 1, "part1" := 0, "part2" := 0];
            Ranked(includes, rank) &&
            Tree(includes, rank, "index") == ["index", "part1", "part2"]
  {
    var includes := map["index" := ["part2", "part1"]];
    var rank := map["index" := 1, "part1" := 0, "part2" := 0];
    assert Ranked(includes, rank);
    TwoChildrenReversed(includes, rank, "index", "part2", "part1");
  }

  lemma Lines1To5()
    ensures Terminated(["1", "2", "3", "4", "5"]) == "1\n2\n3\n4\n5\n"
  {
    FiveLines(["1", "2", "3", "4", "5"], "1", "2", "3", "4", "5");
  }

  lemma Lines6To10()
    ensures Terminated(["6", "7", "8", "9", "10"]) == "6\n7\n8\n9\n10\n"
  {
    FiveLines(["6", "7", "8", "9", "10"], "6", "7", "8", "9", "10");
  }

  lemma Lines11To15()
    ensures Terminated(["11", "12", "13", "14", "15"]) == "11\n12\n13\n14\n15\n"
  {
    FiveLines(["11", "12", "13", "14", "15"], "11", "12", "13", "14", "15");
  }

  lemma Lines1To10()
    ensures Terminated(["1", "2", "3", "4", "5"] + ["6", "7", "8", "9", "10"]) == "1\n2\n3\n4\n5\n6\n7\n8\n9\n10\n"
  {
    TerminatedAppend(["1", "2", "3", "4", "5"], ["6", "7", "8", "9", "10"]);
    Lines1To5();
    Lines6To10();
    assert "1\n2\n3\n4\n5\n" + "6\n7\n8\n9\n10\n" == "1\n2\n3\n4\n5\n6\n7\n8\n9\n10\n";
  }

  /** Lines 1 to 15, each ended by a newline. */
  lemma FifteenLines()
    ensures Terminated(["1", "2", "3", "4", "5"] + ["6", "7", "8", "9", "10"] + ["11", "12", "13", "14", "15"]) == "1\n2\n3\n4\n5\n6\n7\n8\n9\n10\n11\n12\n13\n14\n15\n"
  {
    TerminatedAppend(["1", "2", "3", "4", "5"] + ["6", "7", "8", "9", "10"], ["11", "12", "13", "14", "15"]);
    Lines1To10();
    Lines11To15();
    assert "1\n2\n3\n4\n5\n6\n7\n8\n9\n10\n" + "11\n12\n13\n14\n15\n" == "1\n2\n3\n4\n5\n6\n7\n8\n9\n10\n11\n12\n13\n14\n15\n";
  }

  lemma ThreeDocuments(store: Store, x: DocName, y: DocName, z: DocName)
    ensures AllLines(store, [x, y, z]) == Lines(store, x) + Lines(store, y) + Lines(store, z)
  {
    assert [x, y, z][..2] == [x, y];
    assert [x, y][..1] == [x];
    assert [x][..0] == [];
    assert AllLines(store, [x]) == AllLines(store, []) + Lines(store, x);
    assert AllLines(store, [x, y]) == AllLines(store, [x]) + Lines(store, y);
  }

  /** The text woven from any store holding these lines for the three
      documents. */
  lemma ReversedToctreeText(store: Store)
    requires Lines(store, "index") == ["1", "2", "3", "4", "5"]
    requires Lines(store, "part1") == ["6", "7", "8", "9", "10"]
    requires Lines(store, "part2") == ["11", "12", "13", "14", "15"]
    ensures var includes := map["index" := ["part2", "part1"]];
            var rank := map["index" := 1, "part1" := 0, "part2" := 0];
            Ranked(includes, rank) &&
            Weave(store, includes, rank, "index") == "1\n2\n3\n4\n5\n6\n7\n8\n9\n10\n11\n12\n13\n14\n15\n"
  {
    var includes := map["index" := ["part2", "part1"]];
    var rank := map["index" := 1, "part1" := 0, "part2" := 0];
    ReversedToctreeOrder();
    var order := Tree(includes, rank, "index");
    EmitTerminated(store, order);
    ThreeDocuments(store, "index", "part1", "part2");
    FifteenLines();
  }

  /** A root whose toctree declares `part2` before `part1`: the stack walk
      yields `part1` first, so the woven text runs 1 to 15 in order. */
  lemma ReversedToctree()
    ensures var e1 := Reread(Unattached, "index",
                             [Occurrence(["1", "2", "3"], [], {}), Occurrence(["4", "5"], [], {Hidden})]);
            var e2 := Reread(e1, "part1", [Occurrence(["6", "7", "8", "9", "10"], [], {})]);
            var e3 := Reread(e2, "part2", [Occurrence(["11", "12", "13", "14", "15"], [], {})]);
            var includes := map["index" := ["part2", "part1"]];
            var rank := map["index" := 1, "part1" := 0, "part2" := 0];
            Ranked(includes, rank) &&
            Weave(GetSnippets(e3).1, includes, rank, "index") == "1\n2\n3\n4\n5\n6\n7\n8\n9\n10\n11\n12\n13\n14\n15\n"
  {
    var e1 := Reread(Unattached, "index", [Occurrence(["1", "2", "3"], [], {}), Occurrence(["4", "5"], [], {Hidden})]);
    var e2 := Reread(e1, "part1", [Occurrence(["6", "7", "8", "9", "10"], [], {})]);
    var e3 := Reread(e2, "part2", [Occurrence(["11", "12", "13", "14", "15"], [], {})]);
    ReversedToctreeStore();
    ReversedToctreeText(GetSnippets(e3).1);
  }
}
