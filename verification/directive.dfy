/** The `litprog` directive: a code block whose body is also captured into
    the snippet store under the document being parsed. */
module Directive {
  import opened SnippetStore

  /** The option that suppresses the visible code block. */
  const Hidden: string := "hidden"

  /** The language label the directive forces on the underlying code block. */
  const Language: string := "python"

  /** What the directive hands back to the document: nothing, or the nodes
      the inherited code-block directive builds for this body (that
      construction belongs to the host and is left opaque). */
  datatype Output =
    | NoNodes
    | CodeBlockNodes(language: string, lines: seq<Line>, options: set<string>)

  /** One occurrence of the directive in a document: its body lines, its
      inline arguments and the names of the options it was given. */
  datatype Occurrence = Occurrence(content: seq<Line>, arguments: seq<string>, options: set<string>)

  /** Runs one occurrence found while parsing `doc`: appends its body to the
      document's lines, then renders a code block unless `hidden` is set.
      Any inline argument is replaced by the fixed language label. */
  function Run(env: Env, doc: DocName, occ: Occurrence): (r: (Env, Output))
    ensures r.0.Attached?
    ensures doc in r.0.store
    ensures r.0.store[doc] == Lines(GetSnippets(env).1, doc) + occ.content
    ensures forall k :: k != doc ==>
      (k in r.0.store <==> k in GetSnippets(env).1)
    ensures forall k :: k != doc && k in r.0.store ==>
      r.0.store[k] == GetSnippets(env).1[k]
    ensures Hidden in occ.options <==> r.1 == NoNodes
    ensures Hidden !in occ.options ==>
      r.1 == CodeBlockNodes(Language, occ.content, occ.options)
  {
    var (env', store) := GetSnippets(env);
    var captured := Lines(store, doc) + occ.content;
    var env'' := Attached(store[doc := captured]);
    if Hidden in occ.options then
      (env'', NoNodes)
    else
      (env'', CodeBlockNodes(Language, occ.content, occ.options))
  }

  /** Whether an occurrence is hidden changes only what it renders, never
      what it captures. */
  lemma CaptureIgnoresHidden(env: Env, doc: DocName, occ: Occurrence)
    ensures Run(env, doc, occ.(options := occ.options + {Hidden})).0 == Run(env, doc, occ).0
    ensures Run(env, doc, occ.(options := occ.options + {Hidden})).1 == NoNodes
  {
  }

  /** The body lines of a run of occurrences, in order. */
  function Contents(occs: seq<Occurrence>): (ls: seq<Line>)
  {
    if occs == [] then [] else Contents(occs[..|occs| - 1]) + occs[|occs| - 1].content
  }

  /** Parses one document: runs its occurrences in source order and keeps
      the environment the last one leaves. */
  function ParseDoc(env: Env, doc: DocName, occs: seq<Occurrence>): (r: Env)
    ensures r.Attached? || (occs == [] && r == env)
  {
    if occs == [] then env
    else Run(ParseDoc(env, doc, occs[..|occs| - 1]), doc, occs[|occs| - 1]).0
  }

  /** Parsing a document leaves the entries of every other document exactly
      as they were: the set of other keys and their lines. */
  lemma {:induction false} ParseDocDomain(env: Env, doc: DocName, occs: seq<Occurrence>)
    ensures GetSnippets(ParseDoc(env, doc, occs)).1 - {doc} == GetSnippets(env).1 - {doc}
  {
    if occs != [] {
      var before := ParseDoc(env, doc, occs[..|occs| - 1]);
      ParseDocDomain(env, doc, occs[..|occs| - 1]);
      assert GetSnippets(Run(before, doc, occs[|occs| - 1]).0).1 - {doc} == GetSnippets(before).1 - {doc};
    }
  }

  /** Parsing a document appends all of its bodies, in order, after the
      lines it already had, and touches no other document. */
  lemma {:induction false} ParseDocAppends(env: Env, doc: DocName, occs: seq<Occurrence>)
    ensures Lines(GetSnippets(ParseDoc(env, doc, occs)).1, doc)
      == Lines(GetSnippets(env).1, doc) + Contents(occs)
    ensures forall k :: k != doc ==>
      Lines(GetSnippets(ParseDoc(env, doc, occs)).1, k) == Lines(GetSnippets(env).1, k)
  {
    if occs != [] {
      var init := occs[..|occs| - 1];
      ParseDocAppends(env, doc, init);
      assert Lines(GetSnippets(env).1, doc) + Contents(init) + occs[|occs| - 1].content
        == Lines(GetSnippets(env).1, doc) + Contents(occs);
    }
  }

  /** Purging a document and parsing it again leaves exactly the lines of
      its new bodies, none of the old ones; with no occurrence left, the
      document has no lines at all. */
  lemma ReparseAfterPurge(env: Env, doc: DocName, occs: seq<Occurrence>)
    ensures Lines(GetSnippets(ParseDoc(Purge(env, doc), doc, occs)).1, doc) == Contents(occs)
    ensures occs == [] ==> doc !in GetSnippets(ParseDoc(Purge(env, doc), doc, occs)).1
  {
    ParseDocAppends(Purge(env, doc), doc, occs);
  }
}
