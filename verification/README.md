# sphinx-litprog: snippet bookkeeping and weave, in Dafny

sphinx-litprog is a Sphinx extension for literate programming. Its `litprog`
directive shows a code block in the rendered page and also records the
block's lines under the document being parsed. When the `litprog` builder
finishes, it walks the toctree from the master document and writes the
recorded lines of every visited document into a single file.

This project models that core:

- `snippet_store.dfy` (`SnippetStore`) covers the store. It is the
  `litprog_snippets` attribute of the build environment, which may be
  absent (`Unattached`) or present (`Attached`). The store is a
  `map<string, seq<string>>` from document name to a flat list of lines. The module also has `_get_snippets` and the
  `env-purge-doc` hook.
- `directive.dfy` (`Directive`) covers `LitProgDirective.run`. The
  directive appends its body to the current document's lines. It returns no
  nodes when `hidden` is given, and otherwise returns the inherited code
  block, with the language forced to `python`. `ParseDoc` runs the
  occurrences of one document in source order.
- `toc_order.dfy` (`TocOrder`) covers `_docnames_in_toc_order`:
  - `DocnamesInTocOrder` is the explicit-stack loop.
  - `Tree` and `Subtrees` are a recursive reference for the same order.
  - `Reachable` is path-based reachability through the include map.
- `builder.dfy` (`Builder`) covers the text that `LitProgBuilder.finish`
  writes. `Terminated` is an independent reading of that text: every
  captured line followed by its own newline.
- `scenarios.dfy` (`Scenarios`) holds whole builds on small concrete
  projects. In each one, documents are purged and re-parsed, then woven.

Termination of the walk depends on the include map being acyclic from the
master document. The source does not check this. The model asks for a
ghost `rank` map as a witness: the master document is ranked, and every
child of a ranked document is ranked strictly lower. Only the part of the
include map reachable from ranked documents is constrained.

Points of the code's behaviour that the model keeps exactly, although a
quick reading might suggest otherwise:

- The walk is documented as "depth-first TOC order"
  (sphinx_litprog/__init__.py:18), but siblings come out in reverse of
  their declared order. `stack.pop()` (line 23) takes the document pushed
  last, and `stack.extend` (line 25) pushes the children in declared order,
  so the last-declared child is visited first.
- The store holds a flat list of lines per document. `extend` (line 74)
  adds the directive's lines to that list, so blocks from the same document
  are simply concatenated, with no boundary kept between them.
- `setdefault` (line 73) creates a document's entry before anything is
  added, so a directive with an empty body still leaves an entry with no
  lines. For the woven text, an empty entry and a missing entry are the
  same (lines 50-51).
- A document included from two parents is yielded, and woven, twice.

## Model

| member | source | states |
|---|---|---|
| SnippetStore.GetSnippets | sphinx_litprog/__init__.py:55-58 | the returned store is the one now attached to the environment; an existing store is returned and left as it was, and an empty one is created only when none exists |
| SnippetStore.GetSnippetsIdempotent | sphinx_litprog/__init__.py:55-58 | a second fetch finds the store the first one attached and changes nothing |
| SnippetStore.GetSnippetsKeepsLines | sphinx_litprog/__init__.py:55-58 | fetching the store never clears any document's captured lines |
| SnippetStore.Purge | sphinx_litprog/__init__.py:87-88 | after the purge the document has no entry, and every other document keeps exactly the entry it had |
| SnippetStore.PurgeIdempotent | sphinx_litprog/__init__.py:87-88 | purging an absent document is harmless: purging twice equals purging once |
| SnippetStore.PurgeKeepsOthers | sphinx_litprog/__init__.py:87-88 | the purge leaves every other document's lines unchanged |
| Directive.Run | sphinx_litprog/__init__.py:71-84 | the body is appended, in order, after the document's existing lines, creating the entry if needed; other documents are untouched; no nodes are returned exactly when `hidden` is set, and otherwise the code block is returned with the language forced to python |
| Directive.CaptureIgnoresHidden | sphinx_litprog/__init__.py:73-82 | adding `hidden` changes nothing in the store and only suppresses the rendered output |
| Directive.ParseDocDomain | sphinx_litprog/__init__.py:73-74 | parsing a document leaves every other document's entry, and whether it has one, exactly as it was |
| Directive.ParseDocAppends | sphinx_litprog/__init__.py:73-74 | parsing a document appends all of its bodies, in source order, after its old lines, and leaves every other document alone |
| Directive.ReparseAfterPurge | sphinx_litprog/__init__.py:87-88 | purging and then re-parsing leaves exactly the new bodies' lines; with no directive left, the document has no entry at all |
| TocOrder.Tree | sphinx_litprog/__init__.py:16-25 | the walk from a document yields that document first, and a document with no include entry yields only itself |
| TocOrder.Subtrees | sphinx_litprog/__init__.py:21-25 | the walks from a stack yield at least one document per stack entry |
| TocOrder.SubtreesAppend | sphinx_litprog/__init__.py:22-25 | with `a + b` on the stack, the walks from `b`, which are pushed last, come before those from `a` |
| TocOrder.TreeReachable | sphinx_litprog/__init__.py:21-25 | a document is yielded by the walk from the master document if and only if it is reachable from it through the include map |
| TocOrder.PopExtend | sphinx_litprog/__init__.py:22-25 | one pop-and-extend step yields the popped document and leaves, still to come, exactly the rest of the reference order |
| TocOrder.DocnamesInTocOrder | sphinx_litprog/__init__.py:16-25 | the stack loop yields the reference order: the master document first, only reachable documents, every reachable one, and only the master document when it has no include entry |
| TocOrder.TwoChildrenReversed | sphinx_litprog/__init__.py:22-25 | for children declared `[a, b]`, the document is followed by the whole walk from `b`, and then by the walk from `a` |
| TocOrder.DiamondYieldsTwice | sphinx_litprog/__init__.py:22-25 | a document included from two parents appears twice in the order |
| Builder.JoinTerminated | sphinx_litprog/__init__.py:52 | joining lines with newlines and adding one newline equals ending each line with a newline |
| Builder.BlockTerminated | sphinx_litprog/__init__.py:50-52 | a document contributes its lines, each ended by a newline, and contributes nothing when it has no lines |
| Builder.EmitTerminated | sphinx_litprog/__init__.py:49-52 | the text written for an order is every captured line of those documents, in order, each followed by a newline |
| Builder.MissingEntryAddsNothing | sphinx_litprog/__init__.py:50-51 | a visited document with no entry adds nothing to the text |
| Builder.EmitLocal | sphinx_litprog/__init__.py:49-52 | the text depends only on the entries of the documents in the order |
| Builder.WriteInOrder | sphinx_litprog/__init__.py:49-52 | the write loop produces every captured line of the visited documents, in visit order, each followed by a newline |
| Builder.Finish | sphinx_litprog/__init__.py:43-52 | the finish step writes the lines of the documents of the toctree walk, in walk order, each followed by a newline, and leaves the store as the fetch left it |
| Builder.WeaveIgnoresUnreachable | sphinx_litprog/__init__.py:49-52 | lines of a document not reachable from the master document never reach the woven text, and dropping its entry changes nothing |
| Builder.AllLinesMember | sphinx_litprog/__init__.py:49-52 | a line is among the woven lines if and only if some visited document holds it |
| Builder.WovenLinesReachable | sphinx_litprog/__init__.py:49-52 | a line is woven if and only if some document reachable from the master document holds it; a hidden block's lines count like any other |
| Scenarios.Reread | sphinx_litprog/__init__.py:87-88 | after a purge and a re-parse, the document holds exactly its new bodies' lines, and the other documents are unchanged |
| Scenarios.RereadIdempotent | sphinx_litprog/__init__.py:87-88 | re-reading an unchanged document gives exactly the environment that reading it once gave |
| Scenarios.ParseTwiceWithoutPurge | sphinx_litprog/__init__.py:73-74 | without the purge, parsing a document a second time captures its lines twice |
| Scenarios.RootThenChild | sphinx_litprog/__init__.py:43-52 | root blocks `1 2` and hidden `3 4 5`, then a child block `6`, weave to `1\n2\n3\n4\n5\n6\n` |
| Scenarios.ReversedToctree | tests/test_sphinx_litprog.py:31-33 | a constructed three-document build weaves to the expected `1\n…15\n`; its toctree declares `part2` before `part1`, and `part1` is woven first |

## Left out

- Opening and writing the output file, `os.path.join` with `outdir`, and the
  `litprog_filename` setting (sphinx_litprog/__init__.py:47-48, 95). These
  are I/O. `Finish` returns the text instead of writing it.
- The builder stubs `get_outdated_docs`, `get_target_uri`, `prepare_writing`
  and `write_doc`, and the `setup` registration
  (sphinx_litprog/__init__.py:31-41, 91-101). They are host glue with no
  logic.
- `CodeBlock.run` and the nodes it builds (sphinx_litprog/__init__.py:84).
  This is a foreign library call. `CodeBlockNodes` stands for its result.
  Option validation, including a value given to the `hidden` flag, belongs
  to docutils and is not modelled.
- Merging environments after a parallel read. That concurrency belongs to
  the host.
- The host's event order (purge before re-parse, finish only after a
  successful build). `Scenarios.Reread` states the purge-then-parse order
  explicitly.
- `setup.py`, and the documents of the test project, which are not part of
  this model. `Scenarios.ReversedToctree` is a constructed project that
  weaves to the text the test expects.
- The generator's laziness. `DocnamesInTocOrder` returns the whole order at
  once.
- DocnamesInTocOrder: requires a `rank` witness that the include map is
  acyclic from the master document. The source does not check this, and on
  a cycle it loops forever, which the model does not represent.
- TocOrder.Tree: a document outside the `rank` witness is treated as a leaf.
  The walk from a ranked document never meets such a document.
