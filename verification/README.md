# Inverted index and set operations of a Redis search module

This project models the core of `search_index.py` from the "Redis in Action"
search chapter. Three parts are modelled:

- **Tokenizing.** `tokenize` lower-cases the content and finds every match of
  `[a-z']{2,}`. It strips apostrophes from both ends of each match and keeps
  the results of length at least two. Then it removes the nine stop words.
- **Indexing.** `index_document` queues one `SADD idx:<term> docid` per term
  in a single transactional pipeline. It returns the number of replies.
- **Set operations.** `_set_common` draws a fresh id. It stores the
  intersection, union or difference of the named posting sets, sets an expiry
  and returns the id. `intersect`, `union` and `difference` are thin wrappers
  with `ttl=30` and `_execute=True` defaults.

Modules, one per concern:

- `Text` (`text.dfy`): the regex character class and ASCII lower-casing.
- `Tokenizer` (`tokenizer.dfy`): the stop words, the scanner standing for
  `finditer` and a reference definition of a match, which the scanner is
  proved sound and complete against. Also quote stripping with a uniqueness
  characterization, `Tokenize` with an exact membership theorem, and worked
  examples.
- `KvStore` (`kvstore.dfy`): the Redis server seen as a value. It holds named
  sets (a missing key reads as empty) and the recorded time-to-live per key.
  It models the `SADD`, `S*STORE` and `EXPIRE` commands with their replies.
  A batch of commands runs atomically, in order.
- `Indexer` (`indexer.dfy`): `index_document` as a method with a loop over
  the term set, proved equal to a reference definition `AddToPostings`.
- `SetOps` (`setops.dfy`): `_set_common` and its wrappers. It covers both the
  executed and the deferred (`_execute=False`) mode, and the key mismatch
  described under Findings together with its correction.
- `Search` (`search.dfy`): indexing and querying together.

Two consequences of the code as written are worth stating up front:

- The stop-word list at `search_index.py:8-12` has only nine words (`able
  about if in into is it its just`). So common words such as `these`, `are`
  and `from` are terms; `Tokenizer.ExampleKeptWords` shows they are kept.
- Operand names are read from `'idx:' + name` (line 45) and the expiry is
  set on `'idx:' + sid` (line 47). So a result is evidently meant to live
  at `idx:<id>`, where its id can be used as a name. Line 46 writes it to
  `idx<id>` without the colon; see Findings.

## Model

| member | source | states |
|---|---|---|
| Text.LowerAt | search_index.py:21 | `content.lower()` lower-cases each character in place: position `k` of the result is the lower-cased character `k` of the content |
| Text.LowerConcat | search_index.py:21 | lower-casing distributes over concatenation |
| Tokenizer.RunEnd | search_index.py:14 | the greedy `[a-z']` run starting at a position ends at the first non-word character or the end of the text |
| Tokenizer.ScanFromWords | search_index.py:14-21 | every match `finditer` reports is at least two characters long and consists of letters and apostrophes only |
| Tokenizer.ScanFromExact | search_index.py:14-21 | a string is reported by the scan exactly when it is a maximal run of two or more word characters in the lower-cased text: the scan is sound and complete |
| Tokenizer.StripQuotes | search_index.py:22 | `strip("'")` yields the part of the word left after removing its leading and trailing apostrophes, with no apostrophe at either end |
| Tokenizer.QuoteTrimUnique | search_index.py:22 | at most one string is the word with its edge apostrophes removed, so the strip is fully determined |
| Tokenizer.Terms | search_index.py:22-25 | every kept term is at least two characters long, has no apostrophe at either end and is not a stop word |
| Tokenizer.Tokenize | search_index.py:16-25 | every term `tokenize` returns is a valid term: long enough, letters and inner apostrophes only, not a stop word |
| Tokenizer.TokenizeExact | search_index.py:16-25 | `w` is a token of the content exactly when `w` has length at least two, is not a stop word, and is some maximal match of the lower-cased content with its edge apostrophes stripped |
| Tokenizer.TermTokenizesToItself | search_index.py:16-25 | a valid term given as the whole content tokenizes to exactly itself |
| Tokenizer.TokenizeOneRun | search_index.py:20-25 | content that is one run of word characters yields at most one term, its stripped form |
| Tokenizer.TokenizeEmpty | search_index.py:20-25 | empty content has no terms |
| Tokenizer.TokenizeIgnoresCase | search_index.py:21 | tokenizing lower-cased content gives the same terms as the content itself |
| Tokenizer.TokenizeAtSeparator | search_index.py:14-24 | a non-word character splits the content: the terms of `x + [c] + y` are the terms of `x` and of `y` together |
| Tokenizer.TokenizeRepeated | search_index.py:20-24 | the terms form a set: repeating the content after a space adds none |
| Tokenizer.ExampleIn | search_index.py:8-25 | `In` lower-cases to the stop word `in` and yields no term |
| Tokenizer.ExampleQuotedIt | search_index.py:8-25 | `'it'` strips to the stop word `it` and yields no term |
| Tokenizer.ExampleDont | search_index.py:14-25 | an inner apostrophe is kept: `don't` is one term |
| Tokenizer.ExampleKeptWords | search_index.py:8-25 | `These are from` yields `these`, `are` and `from`, none of which is a stop word |
| Tokenizer.ExampleCaseAndStopWord | search_index.py:8-25 | `Redis In Action` yields `redis` and `action`; `in` is dropped |
| KvStore.PostingKeyInjective | search_index.py:35-45 | different names are stored under different `idx:` keys |
| KvStore.InterMembers | search_index.py:46 | a member is in the stored intersection exactly when it is in every source set |
| KvStore.UnionMembers | search_index.py:46 | a member is in the stored union exactly when it is in some source set |
| KvStore.DiffMembers | search_index.py:46 | a member is in the stored difference exactly when it is in the first source and in none of the others |
| KvStore.Exec | search_index.py:33-37 | a submitted batch gives one reply per queued command |
| KvStore.ExecConcat | search_index.py:44-49 | running two batches one after the other has the same effect as running their concatenation |
| Indexer.AddToPostings | search_index.py:34-35 | indexing adds the document to the posting set of each term and to no other set, and touches no expiry |
| Indexer.SubmitPostings | search_index.py:33-37 | the pipeline of one `SADD` per term, in any order, ends in the reference indexed store and returns one reply per term |
| Indexer.IndexDocument | search_index.py:27-37 | `index_document` returns the number of terms of the content and leaves the document in the posting set of every term |
| Indexer.IndexingTwiceIsIndexingOnce | search_index.py:34-35 | indexing the same document under the same terms twice is the same as indexing it once |
| SetOps.EvaluateInter | search_index.py:45-46 | the intersection over names holds exactly the ids present under every `idx:` name |
| SetOps.EvaluateUnion | search_index.py:45-46 | the union over names holds exactly the ids present under some `idx:` name |
| SetOps.EvaluateDiff | search_index.py:45-46 | the difference holds exactly the ids under the first name and under no later one |
| SetOps.SetCommon | search_index.py:39-50 | as written: no names gives no result; otherwise the returned id is the fresh one. Executed, the result lands at `idx<id>` (an empty result leaves no key), and the expiry, sent to the missing key `idx:<id>`, changes nothing. Deferred, the store is untouched and exactly the two commands are appended to the caller's queue |
| SetOps.Intersect | search_index.py:52-56 | `intersect` is `_set_common` with `sinterstore`, and its stored result holds exactly the ids present under every name |
| SetOps.Union | search_index.py:58-62 | `union` is `_set_common` with `sunionstore`, and its stored result holds exactly the ids present under some name |
| SetOps.Difference | search_index.py:64-68 | `difference` is `_set_common` with `sdiffstore`, and its stored result holds exactly the ids under the first name and no later one |
| SetOps.DeferredThenSubmitted | search_index.py:44-49 | queuing on a pipeline with `execute=False` and submitting it later has the same effect as executing at once |
| SetOps.DeferredOnSharedPipeline | search_index.py:44-49 | on a caller's pipeline that already holds commands, `execute=False` followed by the caller's `execute()` equals submitting the earlier commands and then running the call at once |
| SetOps.WrittenKeyIsNoName | search_index.py:45-46 | the key `idx<id>` a result is written to is never the key `idx:<name>` of any name |
| SetOps.ResultNotComposable | search_index.py:43-50 | as written, the result sits under a key that no name reaches and that never expires; the expiry goes to a missing key and records nothing; and the returned id used as a name reads the empty set |
| SetOps.NotComposableExample | search_index.py:39-62 | with `d1` indexed under `a`, `union(['a'])` stores `{d1}`, but the union of the id it returned stores nothing |
| SetOps.SetCommonCorrected | search_index.py:39-50 | the corrected `_set_common` writes the result and its expiry to the same `idx:<id>` key, with nothing else changed; an empty result leaves no key and no expiry |
| SetOps.CorrectedComposable | search_index.py:45-47 | corrected, the returned id used as a name reads exactly the result, a non-empty result carries the expiry, and a further intersection combines it with another name's set |
| Search.IndexedWordsFound | search_index.py:27-56 | a document indexed under its terms is in the intersection of any two of them |
| Search.UnindexedTermFindsNothing | search_index.py:52-56 | an intersection naming a term with no posting set is empty |
| Search.ChainedQueryFinds | search_index.py:39-62 | with the corrected key, intersecting the id of a union with another term finds a document indexed under both |

## Left out

- Redis itself is a model here: connections, transport, `MULTI`/`EXEC`
  framing, network failure and concurrent clients are not modelled. A batch
  is atomic and in order.
- `uuid.uuid4()` is not modelled as randomness. The fresh id is a parameter
  `sid` required to be in UUID text form, with neither of its two derived
  keys already in use.
- Expiry over time is not modelled. `EXPIRE` on an existing key only
  records the time-to-live. A zero or negative time-to-live, which makes
  Redis delete the key at once, is recorded like any other.
- The store holds only sets, so the type errors Redis raises for a key of
  another type cannot arise.
- `_set_common` with no names: the client library fails before queuing
  anything. The model returns `NoOperands` and changes nothing.
- Text.LowerAt: lower-cases ASCII `A`-`Z` only, because Python's full
  Unicode case tables are outside the model. This makes the model differ
  from the program on some inputs. Python's `str.lower()` maps some
  non-ASCII characters onto letters the pattern keeps: U+212A KELVIN SIGN
  becomes `k`, and U+0130 becomes `i` followed by U+0307. For the content
  `\u212Aey` the program yields `{"key"}`, while the model keeps the Kelvin
  sign as a separator and yields `{"ey"}`. On ASCII content the two agree.
- The order in which Python walks the term set is left open:
  `SubmitPostings` proves the same result for every order.
- Query parsing, synonyms and sorting of search results are not part of this
  source file and are not modelled.

## Findings

| source | as written | input that shows it | evidently intended | confidence | as-written member | corrected member |
|---|---|---|---|---|---|---|
| search_index.py:46-47 | the result is stored under `'idx' + sid` while `expire` is applied to `'idx:' + sid` and `sid` is returned as a name | index `d1` under `a`; `sid1 = union(conn, ['a'])` stores `{d1}` at `idx<sid1>`, and its `expire` finds no key `idx:<sid1>`, so the result never expires; then `union(conn, [sid1])` reads the missing `idx:<sid1>` and finds nothing | store the result under `'idx:' + sid`, the key that gets the expiry and that the id resolves to | high; not executed | SetOps.ResultNotComposable | SetOps.SetCommonCorrected |
