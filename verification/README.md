# Layered configuration engine, modelled in Dafny

This project models the `Configurator` engine of `lib/configurator.js`.
A configurator is built from an ordered list of configuration sources,
lowest priority first. Sources that fail to load are skipped. `get(path)`
returns the value from the highest-priority source that has a non-empty
value at the path. `getOrDefault(path, def)` falls back to `def`. `export(paths)`
builds a new nested document that holds only the paths that resolve.

Modules:

- `Path` (`path.dfy`): how a string path such as `server.port` becomes the
  keys `["server", "port"]`. The empty path addresses the whole document.
  This is the behaviour of the navigation library, which the engine calls.
- `Document` (`document.dfy`): the document tree a YAML parser produces
  (`Null | Bool | Num | Str | Seq | Map`) and the emptiness test. It also
  holds the navigation library's `get` and `set`, as `Lookup` and `SetPath`.
  `Option.None` stands for JavaScript's `undefined`, and `Some(Null)` for an
  explicit `null`.
- `Configuration` (`configurator.dfy`): the specification functions
  `Loaded`, `Resolve` and `ExportDoc`, the lemmas about them, and the class
  `Configurator`. Its constant field `sources` is computed by the constructor's loop and never changes afterwards.
  `Get` and `Export` are loops proved equal to `Resolve` and `ExportDoc`.
  `GetOrDefault` is a function.

The doc comment at `lib/configurator.js:11-16` lists environment variables
as a source. The code does not consult the environment:
`get` stops after the file sources, with a to-do note at line 74. This model
follows the code. Sources are files only, and no environment overlay exists.

The emptiness test treats `null` and `undefined` alike. So a higher-priority
source cannot blank out a lower one by setting an explicit `null`: its `null`
counts as "no value here". This is modelled as written (`IsEmpty`, `Resolve`).

## Model

| member | source | states |
|---|---|---|
| `Path.Split` | lib/configurator.js:71 | every piece of a split path is free of `.`, and there is at least one piece |
| `Path.Segments` | lib/configurator.js:71 | a path addresses no keys exactly when it is the empty string; no key contains `.` |
| `Path.JoinSplit` | lib/configurator.js:71 | splitting a path loses nothing: joining the pieces with `.` gives the path back |
| `Path.SplitJoin` | lib/configurator.js:71 | joining dot-free keys and splitting again gives the same keys |
| `Path.SegmentsInjective` | lib/configurator.js:71 | two different string paths never address the same keys |
| `Document.IsEmpty` | lib/configurator.js:45-47 | only `null` and `undefined` are empty; the falsy values `false`, `0` and `""` are not empty, so they override lower sources |
| `Document.SetPath` | lib/configurator.js:58 | storing into a map at a non-empty path yields a map whose top-level keys are the old ones plus the path's first key; an empty path or a non-map target changes nothing |
| `Document.Lookup` | lib/configurator.js:71 | the empty path yields the document itself; a non-empty path yields nothing when the node reached is not a map (`null`, a sequence or a scalar) or lacks the next key |
| `Document.LookupAppend` | lib/configurator.js:71 | looking up `s + t` is looking up `t` inside the value found at `s` |
| `Document.LookupAfterSet` | lib/configurator.js:58 | a value stored at a path whose existing nodes are maps is read back at that path |
| `Document.LookupAfterSetElsewhere` | lib/configurator.js:58 | storing at a path leaves the lookup at every disjoint path unchanged |
| `Document.SetKeepsSettable` | lib/configurator.js:58 | storing at the same path or a disjoint one keeps every node above the other path a map |
| `Configuration.Loaded` | lib/configurator.js:24-34 | at most as many documents are kept as there are sources, with equality exactly when every source loaded |
| `Configuration.LoadedAppend` | lib/configurator.js:25-34 | filtering is order-preserving and compositional: the kept documents of `a + b` are those of `a` followed by those of `b`, so a failed load does not stop later sources |
| `Configuration.LoadedPosition` | lib/configurator.js:25-29 | a source that loaded sits in the kept list right after the documents kept from the sources before it |
| `Configuration.LoadedMembers` | lib/configurator.js:25-33 | a document is kept exactly when some source loaded it |
| `Configuration.Configurator.constructor` | lib/configurator.js:20-35 | the configurator's sources are exactly the documents that loaded, in input order; the field is a constant, so they never change afterwards |
| `Configuration.Resolve` | lib/configurator.js:68-76 | a resolved value is never an explicit `null`: it is either absent or non-empty |
| `Configuration.ResolveAbsent` | lib/configurator.js:69-75 | `get` is absent exactly when every source is empty at the path; with no sources it is always absent |
| `Configuration.ResolveWinner` | lib/configurator.js:70-73 | the value is the lookup in the source that is non-empty at the path when every later source is empty there |
| `Configuration.ResolveHasWinner` | lib/configurator.js:70-73 | a present value always comes from such a winning source |
| `Configuration.ResolvePrecedence` | lib/configurator.js:68-76 | the three facts above together: absent iff all empty, else the highest-index non-empty lookup |
| `Configuration.ResolveLayers` | lib/configurator.js:72 | with the sources split into a lower and an upper layer, the upper layer's value wins whenever it has one, and an upper layer that is empty at the path never replaces the lower value |
| `Configuration.Configurator.Get` | lib/configurator.js:68-76 | the loop over the sources computes `Resolve` of the sources at the path's keys |
| `Configuration.Configurator.GetOrDefault` | lib/configurator.js:83-86 | returns `def` unchanged when every source is empty at the path, and otherwise the winning source's value |
| `Configuration.ExportDoc` | lib/configurator.js:53-61 | the exported document is always a map (an object) |
| `Configuration.ExportSparse` | lib/configurator.js:53-61 | every top-level key of an export is the first key of an exported path that resolved; unresolved paths leave no key |
| `Configuration.ExportNothing` | lib/configurator.js:53-61 | when no path resolves, including when there are no paths, the export is the empty document |
| `Configuration.ExportAt` | lib/configurator.js:53-61 | for a non-empty path that no other exported path extends or prefixes, the export holds `get(path)` at that path, and nothing when the path was not exported |
| `Configuration.Configurator.Export` | lib/configurator.js:53-62 | the loop builds exactly `ExportDoc` of the sources and the paths |

## Left out

- Environment variables: the code does not read them (the to-do at `lib/configurator.js:74`), so there is no overlay in the model.
- File reading and YAML parsing (`lib/configurator.js:27`) are outside the model. The constructor receives, per source, `Some(doc)` for a parsed document or `None` for a failed read or parse. A YAML file that parses to `undefined`, such as an empty file, is passed in as `Some(Null)`. Both values behave the same under every lookup.
- JSON serialisation of the export (`lib/configurator.js:61`): `Export` returns the document tree, not its JSON text.
- The `Configurator(sources)` call without `new` (`lib/configurator.js:36-38`) only re-enters the constructor.
- Numbers are modelled as unbounded integers, not IEEE doubles. Non-integer scalars (YAML floats such as `1.5`, timestamps, binary values) have no counterpart in `Doc`. The engine only passes such values through `IsEmpty`, where they would count as non-empty like any other scalar.
- Navigation-library details not modelled: numeric keys that index arrays, and `set` creating arrays for numeric keys. Own properties of strings and arrays are also left out: the navigation library finds `length` on both, because it checks own properties. A lookup through a sequence or a scalar is absent here.
- `Document.SetPath`: storing through an existing node that is not a map leaves the document unchanged. In JavaScript the outcome depends on the node. Through `null` or a scalar (a boolean, number or string), the store throws. Through a sequence with a non-numeric key, it adds a property to the array that JSON does not print, so the serialised result equals the model's document. Through a sequence with a numeric key, it overwrites an element, which the model does not do (numeric keys are left out above). This case can arise in an export even where `ExportAt` applies: two other exported paths may nest inside each other, for example `a` holding `{b: null}` followed by `a.b.c`.
- `Configuration.ExportDoc`: when an exported path has to be stored through an existing `null` or scalar node, JavaScript's `export` throws as a whole and returns nothing. `ExportDoc`, `Configurator.Export` and `ExportAt` instead describe the document the model builds, in which that one store was skipped. Through a sequence with a non-numeric key, the JavaScript output equals the model's document, as the line above explains.
- Sharing of subtrees between an export and the sources: documents are immutable values here. In JavaScript, storing a deeper path under an exported subtree can write into a source document.
- `get` called twice gives the same answer because `Get` changes nothing (it has no `modifies` clause); there is no separate lemma for this.
- The command-line front end `bin/configurator.js` (argument parsing, printing, exit codes) is not part of this model.
