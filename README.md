# FGCR span/relation converter, modelled in Dafny

This project models the conversion step of the UIE repository's FGCR script. The script turns one causal-event annotation instance into a `{id, tokens, span_pair_list, span_list}` record.

It has two parts:

- The span registry `Entities`. It is a table from `(start, end)` offset pairs to `(index, kind)` plus a counter. It gives each unseen pair the next dense index, and the first kind registered for a pair is the kind it keeps.
- `convert_instance`. It makes two passes over `labelData`:
  - The registration pass skips N:M relations, where both sides have more than one span. It registers every other relation's causes as `"cause"` and its effects as `"effect"`.
  - The expansion pass turns each relation into directed `(type, head, tail)` edges: by fan-in, fan-out or 1:1.
  - It then serialises the edges, and the registry in insertion order.

Layout:

- `fgcr_model.dfy`, module `FgcrModel`:
  - the values: `Span`, `LabelData`, `RawInstance`, `Entry`, `SpanRecord`, `Relation`, `SpanPair`, `ConvertedInstance`, `Edge`;
  - reference definitions as pure functions:
    - `Register`: the span list after one `add_entities` call.
    - `PrePass`: the span list after the registration pass.
    - `Expand`: the edges one annotation denotes. It is the cause × effect product, or nothing for an N:M annotation.
    - `Edges`: the edges of a whole instance, in encounter order.
  - the lemmas that state the converter's laws about these definitions.
- `fgcr_processing.dfy`, module `FgcrProcessing`:
  - the class `Entities`. It has the fields `entities` (a map), `idxCounter`, and `order`, the map's keys in insertion order (what a Python dict iterates over).
  - the methods of `convert_instance`, each with its loops and invariants.
  - Each method is proved against the reference definitions. The registry's span list is `Contents()`; `Valid()` ties the map, counter and order together.

The main result is `ConvertInstance`'s contract, which says:

- The output span list is `PrePass([], labelData)` and has no repeated offset pair.
- Every `span_pair_list` entry numbers the corresponding edge of `Edges(labelData)`: its `head` and `tail` are in range, and they index that edge's cause and effect spans.

By `PairsDenoteUnique`, the whole record is determined by its input.

Two facts about the code are worth stating:

- `get_entity_index` raises `KeyError` on a missing pair (line 47), but `convert_instance` never triggers it. Both passes skip the same N:M relations (lines 61 and 71). `PrePassRegisters` and `ExpandAll` prove that every lookup finds its key.
- A relation with an empty side is dropped only by the expansion pass (line 74). The registration pass (lines 61-64) still registers its non-empty side, so `span_list` can hold spans that no span pair refers to. `SpanListSize` gives the count, and `ExampleEmptySide` shows one such relation.

## Model

| member | source | states |
|---|---|---|
| `FgcrProcessing.Entities.constructor` | dataset_processing/scripts/fgcr_processing.py:32-35 | a new registry is well formed, with an empty table and a counter of 0 |
| `FgcrProcessing.Entities.AddEntities` | dataset_processing/scripts/fgcr_processing.py:37-44 | the new state is old state plus `Register(old span list, spans, kind)`; entries already present keep their index and kind; every registered pair is afterwards a key; an empty list, or a list of pairs that are all present, leaves the map, order and counter unchanged |
| `FgcrProcessing.Entities.GetEntityIndex` | dataset_processing/scripts/fgcr_processing.py:46-48 | for a registered pair, returns the index stored for it, and the span list holds that pair at that position |
| `FgcrProcessing.Insert` | dataset_processing/scripts/fgcr_processing.py:42-44 | giving an unseen pair the counter value and incrementing the counter keeps the registry well formed and appends the pair, with its kind, to the span list |
| `FgcrProcessing.Added` | dataset_processing/scripts/fgcr_processing.py:37-44 | on the table, registration keeps every existing entry unchanged, makes every registered pair a key, and changes nothing when all of them were present |
| `FgcrProcessing.DenseIndices` | dataset_processing/scripts/fgcr_processing.py:35-44 | in a well-formed registry the stored indices are exactly 0 .. idx_counter-1, no two keys share one, and idx_counter equals the number of keys |
| `FgcrProcessing.RecordsDetermine` | dataset_processing/scripts/fgcr_processing.py:34-44 | the span list in insertion order determines the table: an extended span list keeps every older entry, and equal span lists mean equal map, order and counter |
| `FgcrModel.RegisterExtends` | dataset_processing/scripts/fgcr_processing.py:42-44 | registration only appends to the span list, so a pair's first index and first kind are kept (first kind wins) |
| `FgcrModel.RegisterDistinct` | dataset_processing/scripts/fgcr_processing.py:42-43 | registration never adds an offset pair that is already present |
| `FgcrModel.RegisterContents` | dataset_processing/scripts/fgcr_processing.py:40-44 | after registration the span list's pairs are exactly the earlier ones plus the registered ones; every appended entry is a registered pair carrying the given kind |
| `FgcrModel.RegisterPresent` | dataset_processing/scripts/fgcr_processing.py:42 | registering pairs that are all present already leaves the span list unchanged |
| `FgcrProcessing.RegisterSpans` | dataset_processing/scripts/fgcr_processing.py:59-64 | the registration pass builds a fresh well-formed registry whose span list is `PrePass([], labelData)` |
| `FgcrModel.PrePassExtends` | dataset_processing/scripts/fgcr_processing.py:60-64 | the registration pass only appends to the span list |
| `FgcrModel.PrePassContents` | dataset_processing/scripts/fgcr_processing.py:60-64 | the span list after the registration pass has no repeated pair, and holds exactly the causes and effects of the relations that are not N:M; an appended cause has kind "cause" and an appended effect has kind "effect"; an N:M relation's spans appear only if another relation names them |
| `FgcrModel.SpanListSize` | dataset_processing/scripts/fgcr_processing.py:59-64 | the span list has as many entries as there are distinct offset pairs in the relations that are not N:M |
| `FgcrProcessing.PrePassRegisters` | dataset_processing/scripts/fgcr_processing.py:60-100 | every span of every relation that is not N:M is a registry key after the registration pass, so the expansion pass's lookups have their key |
| `FgcrModel.ExpandMembers` | dataset_processing/scripts/fgcr_processing.py:71-100 | an edge is produced for a relation if and only if the relation is not N:M and the edge has the relation's type, a cause from `reason` and an effect from `result` |
| `FgcrModel.ExpandSize` | dataset_processing/scripts/fgcr_processing.py:71-100 | a relation that is not N:M produces len(reason) * len(result) edges, and an N:M one produces none |
| `FgcrModel.ExpandManyToMany` | dataset_processing/scripts/fgcr_processing.py:71-73 | an N:M relation produces no edge; this holds by the definition of `Expand`, and `ExpandRelation`'s early return is proved against it |
| `FgcrModel.ExpandEmptySide` | dataset_processing/scripts/fgcr_processing.py:74-76 | a relation with an empty `reason` or `result` produces no edge |
| `FgcrModel.ExpandFanIn` | dataset_processing/scripts/fgcr_processing.py:78-84 | fan-in: with k > 1 causes and one effect there are exactly k edges, the i-th from cause i into the single effect, each with the relation's type |
| `FgcrModel.ExpandFanOut` | dataset_processing/scripts/fgcr_processing.py:85-91 | fan-out: with one cause and k effects there are exactly k edges, the j-th from the single cause into effect j |
| `FgcrModel.ExpandOneToOne` | dataset_processing/scripts/fgcr_processing.py:92-100 | a 1:1 relation produces exactly its one edge |
| `FgcrProcessing.ExpandRelation` | dataset_processing/scripts/fgcr_processing.py:68-100 | given a well-formed registry holding the relation's spans (one that is not N:M), the appended relations number `Expand(relation)` one for one: same count and order, same type, and head and tail index the edge's cause and effect spans |
| `FgcrProcessing.ExpandAll` | dataset_processing/scripts/fgcr_processing.py:66-100 | over the registry built by the registration pass, the relations number `Edges(labelData)` one for one, in encounter order; no lookup misses |
| `FgcrProcessing.SerialisePairs` | dataset_processing/scripts/fgcr_processing.py:102-110 | `span_pair_list` has one entry per relation, in order, with type = kind, head = cause_idx and tail = effect_idx |
| `FgcrProcessing.SerialiseSpans` | dataset_processing/scripts/fgcr_processing.py:112-120 | `span_list` is the registry in insertion order; entry i is the pair stored with index i, together with its kind |
| `FgcrProcessing.ConvertInstance` | dataset_processing/scripts/fgcr_processing.py:58-128 | id and tokens come from the instance; the span list is `PrePass([], labelData)` with no repeated pair; each span pair numbers the matching edge of `Edges(labelData)`; every head and tail is below the span list's length |
| `FgcrModel.PairsDenoteUnique` | dataset_processing/scripts/fgcr_processing.py:102-120 | over a span list without repeated pairs, only one numbering of a given edge sequence exists, so the converted record is a function of the input |
| `FgcrModel.ExampleOneToOne` | dataset_processing/scripts/fgcr_processing.py:58-128 | the single relation (0,3) -> (5,8) gives span list [cause (0,3), effect (5,8)] and span pairs [(cause, 0, 1)] |
| `FgcrModel.ExampleEmptySide` | dataset_processing/scripts/fgcr_processing.py:61-76 | the relation with no cause and effect (5,8) registers the effect, giving span list [effect (5,8)], and produces no edge |
| `FgcrModel.ExampleFanInSpans` | dataset_processing/scripts/fgcr_processing.py:59-64 | the fan-in relation (0,3), (4,7) -> (9,12) gives span list [cause (0,3), cause (4,7), effect (9,12)] |
| `FgcrModel.ExampleFanIn` | dataset_processing/scripts/fgcr_processing.py:78-84 | that fan-in relation gives the pairs (0, 2) and (1, 2): they share the effect's index as tail, and the heads follow cause order |

## Left out

- Tokenisation: `word_tokenize` (lines 27-28) belongs to an external library. `ConvertInstance` takes the tokenizer as a function parameter `string -> seq<string>` and promises only that `tokens` is its result on `info`.
- Diagnostics: the `print` calls for skipped relations (lines 72 and 75) only report. The model's skip is a plain `return` with no relations.
- File handling: `convert_file` and `main` (lines 131-153) read and write JSON files at hardcoded paths. They are not part of this model.
- `str(instance["tid"])` (line 123): the model's `RawInstance.tid` is already a string. The output's JSON/dict shape becomes the datatype `ConvertedInstance`.
- Spans are exactly two integers (line 41): this is the type `Span(start, end)`, not a runtime unpacking that could fail.
- `get_entity_index` on a missing key raises `KeyError` in the source. That is `GetEntityIndex`'s precondition, and `ExpandAll` proves every call meets it, so the error path cannot be reached.
- Integers: offsets are unbounded `int`s, as in Python. The three source `assert`s (lines 79, 86, 93) are Dafny `assert`s that the verifier proves.
