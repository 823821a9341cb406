/** The snippet store: a map from document name to the flat, ordered list of
    code lines captured from that document, kept as an attribute of the
    build environment. The attribute is absent until first used. */
module SnippetStore {
  type DocName = string
  type Line = string
  type Store = map<DocName, seq<Line>>

  /** The part of the build environment this extension touches: the
      `litprog_snippets` attribute, which may not exist yet. */
  datatype Env = Unattached | Attached(store: Store)

  /** Reads one document's lines, with a missing entry read as no lines. */
  function Lines(store: Store, doc: DocName): (ls: seq<Line>)
    ensures doc in store ==> ls == store[doc]
    ensures doc !in store ==> ls == []
  {
    if doc in store then store[doc] else []
  }

  /** Returns the environment's store, attaching an empty one first when the
      environment has none. An existing store is handed back untouched. */
  function GetSnippets(env: Env): (r: (Env, Store))
    ensures r.0 == Attached(r.1)
    ensures env.Attached? ==> r.0 == env && r.1 == env.store
    ensures env.Unattached? ==> r.1 == map[]
  {
    match env
    case Attached(s) => (env, s)
    case Unattached => (Attached(map[]), map[])
  }

  /** Fetching the store twice is the same as fetching it once: the second
      fetch finds the store the first one attached. */
  lemma GetSnippetsIdempotent(env: Env)
    ensures GetSnippets(GetSnippets(env).0) == GetSnippets(env)
  {
  }

  /** Fetching the store never loses a captured line. */
  lemma GetSnippetsKeepsLines(env: Env, doc: DocName)
    ensures env.Attached? ==> Lines(GetSnippets(env).1, doc) == Lines(env.store, doc)
    ensures env.Unattached? ==> Lines(GetSnippets(env).1, doc) == []
  {
  }

  /** The purge hook: forgets one document's lines, and does nothing if the
      document has none. */
  function Purge(env: Env, doc: DocName): (r: Env)
    ensures r.Attached?
    ensures doc !in r.store
    ensures forall k :: k != doc ==>
      (k in r.store <==> k in GetSnippets(env).1)
    ensures forall k :: k != doc && k in r.store ==>
      r.store[k] == GetSnippets(env).1[k]
  {
    var (env', store) := GetSnippets(env);
    Attached(store - {doc})
  }

  /** Purging twice is the same as purging once. */
  lemma PurgeIdempotent(env: Env, doc: DocName)
    ensures Purge(Purge(env, doc), doc) == Purge(env, doc)
  {
    var once := Purge(env, doc).store;
    var twice := Purge(Purge(env, doc), doc).store;
    assert twice == once - {doc};
    assert once - {doc} == once;
  }

  /** Purging one document leaves every other document's lines as they were. */
  lemma PurgeKeepsOthers(env: Env, doc: DocName, other: DocName)
    requires other != doc
    ensures Lines(Purge(env, doc).store, other) == Lines(GetSnippets(env).1, other)
  {
  }
}
