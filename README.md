# foodSearcher core, modelled in Dafny

foodSearcher is a food search service for intake24. Food names live in a PostgreSQL table. Embedding jobs compute a vector for each name and store it in a pgvector column. The service answers a query with the nearest foods, and two test suites measure the quality of its answers. This project models the deterministic rules under that plumbing and proves what they promise:

- **Schema check** (`Db`, `VectorTypes`). The embedding column is added as `vector(dim)` when it is absent. It is accepted when it reads back as `vector(dim)`. It is refused when its type text has another shape or another width. The check never alters an existing column.
- **Column names** (`ColumnNames`). The column name is `embedded_` followed by the model id. Every character outside `[a-zA-Z0-9_]` becomes `_`, and the result is lower-cased.
- **Database client helpers** (`Db`). Client settings come from the environment, overridden field by field. A lazily created shared client is kept until it is closed.
- **The two embedding jobs** (`GeminiEmbedder`, `LocalEmbedder`, over `Storage`, `Batching`, `Pooling`).
  - Each job builds a working set: the trimmed, non-empty names of the rows whose column is NULL.
  - It probes the vector width, ensures the column, and embeds in batches of 100 (Gemini) or 128 (local model). It counts the stores and prints a progress line per batch.
  - The food table is a class whose rows the jobs update in place. The width refusal of pgvector is part of the table.
  - Every job operation takes a `Program`. `AsWritten` is the jobs' own code: the first query names the column in its `WHERE`, so it fails on a table without the column, and `UPDATE ... WHERE name = $1` compares the stored name with the trimmed working-set name. `Corrected` is the program the code evidently intends (see "## Findings"): a missing column reads as NULL, and the update reaches every row whose name trims to the working-set name. Each run lemma states what holds under each program.
- **Mean pooling** (`Pooling`). A text's vector is the feature-wise mean of its token vectors.
- **The two early scripts** (`LegacyFoods`, `LegacyUpdateEmbedder`, `LegacyUpsertEmbedder`). One updates a fixed list of foods by name. The other inserts the list or updates it on conflict.
- **The search-quality tests** (`TextMatch`, `Samples`, `Requests`, `Ranking`, `MrrTest`, `AccuracyTest`):
  - name normalisation and tolerant matching;
  - the deduplicated, capped query sample;
  - the retry-on-503 request loop;
  - reciprocal rank at K and the MRR means;
  - the 85% success threshold.

External systems are parameters:
- The Gemini service is a function from a request's texts to its reply or a failure.
- The feature-extraction model is a function from texts to token matrices.
- The search service is a function from a query and an attempt number to a response.
- Whether a connection is accepted is a boolean.
- The environment's database settings are a value.

Numbers are mathematical reals. Strings are sequences of characters, with ASCII character classes.

## Model

| member | source | states |
|---|---|---|
| Common.ToLower | api/src/test/mrr.test.ts:57 | lower-casing keeps the length; each upper-case ASCII letter becomes its lower-case letter and every other character is kept |
| Common.TrimShape | api/src/google_food_embedder.ts:53 | `trim` yields a part of the string with no white space at either end, and leaves a string without edge white space as it is |
| Common.TrimIdempotent | api/src/test/mrr.test.ts:127 | trimming twice is trimming once |
| Common.SubstringTransitive | api/src/test/mrr.test.ts:66 | `includes` is transitive |
| ColumnNames.ColumnName | api/src/google_food_embedder.ts:21-24 | the name is `embedded_` plus one character per model-id character: a safe character lower-cased, any other `_`; so its length is 9 + the id's length and it holds only `[a-z0-9_]` |
| ColumnNames.ColumnNameIdempotent | api/src/google_food_embedder.ts:21-24 | deriving again from the part after the prefix gives the same name |
| ColumnNames.GeminiColumnName | api/src/google_food_embedder.ts:11-24 | the default Gemini id gives `embedded_gemini_embedding_001` |
| ColumnNames.LocalColumnName | api/src/food_embedder.ts:12-22 | the default local id gives `embedded_xenova_all_minilm_l6_v2` |
| ColumnNames.CommentColumnName | api/src/food_embedder.ts:18-22 | the id behind the comment's example gives `embedded_onnx_community_embeddinggemma_300m_onnx` |
| ColumnNames.ColumnNameCollision | api/src/food_embedder.ts:19-22 | two model ids give the same column exactly when they have the same length and agree position by position up to letter case, every character outside `[a-zA-Z0-9_]` counting as `_` |
| ColumnNames.ColumnNameCollisionExample | api/src/food_embedder.ts:19-22 | for instance `Gemini-Embedding-001` and `gemini_embedding/001` share one column |
| VectorTypes.Decimal | api/src/utils/db.ts:74 | the numeral of `n` is a non-empty digit string whose decimal value is `n` |
| VectorTypes.ParseVectorWidth | api/src/utils/db.ts:80-86 | the `/^vector\((\d+)\)$/i` match of the column type and the value of its digits; ParseAcceptsShape and ParseOnlyShape state exactly which texts it accepts |
| VectorTypes.ParseVectorTypeName | api/src/utils/db.ts:74-86 | the type text written on ADD COLUMN reads back as exactly its width |
| VectorTypes.ParseAcceptsShape | api/src/utils/db.ts:80-86 | `vector` in any letter case, `(`, any non-empty digits and `)` is accepted, with the digits' value |
| VectorTypes.ParseOnlyShape | api/src/utils/db.ts:80-86 | only texts of that shape are accepted, anchored at both ends |
| VectorTypes.ParseRejects | api/src/utils/db.ts:80-85 | other types, a missing, empty or signed width and trailing text are refused |
| Storage.WorkingSet | api/src/google_food_embedder.ts:49-54 | at most one working-set name per row |
| Storage.WorkingSetMembers | api/src/google_food_embedder.ts:49-54 | a name is in the working set exactly when some row with a NULL column has it as its trimmed, non-empty name |
| Storage.UpdateByName | api/src/google_food_embedder.ts:86-91 | the statement as written: exactly the rows whose stored name equals the given name get the column set to the vector; names and every other row are kept |
| Storage.UpdateByTrimmedName | api/src/google_food_embedder.ts:52-53 | the corrected statement: exactly the rows whose stored name trims to the given name get the column set to the vector; names and every other row are kept |
| Storage.UpdateRows | api/src/food_embedder.ts:84-89 | one update under a program reaches the rows that program's `WHERE` selects, sets their column to the vector and keeps every other row |
| Storage.ApplyWrites | api/src/google_food_embedder.ts:86-91 | the rows after a program's updates, applied in order; updates never add or remove rows |
| Storage.ApplyWritesConcat | api/src/google_food_embedder.ts:78-93 | the updates of one batch after those of the earlier batches are the updates of all of them in order |
| Storage.ApplyWritesFrame | api/src/google_food_embedder.ts:86-91 | under either program, updates keep every row's name and other columns, and leave a row that no update reaches as it was |
| Storage.ApplyWritesStillPending | api/src/google_food_embedder.ts:86-91 | a row whose column is still NULL after the updates was NULL before and no update reaches it |
| Storage.WritesEmptyWorkingSet | api/src/google_food_embedder.ts:49-91 | updating every working-set name leaves an empty working set: always with the corrected update, and with the update as written when every pending row stores its name already trimmed |
| Storage.WritesAllEmptyWorkingSet | api/src/food_embedder.ts:36-91 | issuing one update per working-set name, in order, leaves nothing for the next run, under the same condition on the update as written |
| Storage.ApplyWritesKeepsInvariant | api/src/google_food_embedder.ts:86-91 | updates whose vectors fit the column's declared width keep every stored vector fitting its column |
| Storage.UpdateByNameMissesPaddedName | api/src/google_food_embedder.ts:52-91 | on a row stored as " apple", the statement as written changes nothing and the row stays in the working set; the trimmed comparison reaches it |
| Storage.FoodTable.AddColumn | api/src/utils/db.ts:73-75 | the schema gains the column with its type text, the rows are unchanged, and the table invariant holds |
| Storage.FoodTable.Update | api/src/google_food_embedder.ts:86-91 | a vector that fits the column updates the rows the program's `WHERE` reaches (as written, the rows whose stored name equals the given one); any other vector is refused and changes nothing |
| Db.MergeConfig | api/src/utils/db.ts:22-31 | every supplied field replaces the environment value and every other field keeps it; no overrides give the environment values |
| Db.MergeIdempotent | api/src/utils/db.ts:22-31 | spreading the same overrides twice changes nothing more |
| Db.MergeEmpty | api/src/utils/db.ts:22-24 | an empty override object and no override agree |
| Db.Client.constructor | api/src/utils/db.ts:25-31 | a new client holds its settings and is neither connected nor ended |
| Db.Client.Connect | api/src/utils/db.ts:39 | the client is connected exactly when the server accepts |
| Db.Client.End | api/src/utils/db.ts:53 | the client is ended and no longer connected |
| Db.CreateClient | api/src/utils/db.ts:22-32 | a fresh, unconnected client with the merged settings |
| Db.ConnectNewClient | api/src/utils/db.ts:43-49 | a fresh connected client with the merged settings, or a failure exactly when the connection is refused |
| Db.SharedClientHandle.constructor | api/src/utils/db.ts:34 | no shared client at first |
| Db.SharedClientHandle.GetClient | api/src/utils/db.ts:36-41 | an existing shared client is returned unchanged; otherwise a fresh client from the environment alone is stored, then connected |
| Db.SharedClientHandle.CloseSharedClient | api/src/utils/db.ts:51-56 | the shared client is ended and forgotten; with none, nothing changes |
| Db.SharedClientLifecycle | api/src/utils/db.ts:34-56 | without a close, a second `getClient` returns the first client; the close ends it; the next call builds a new client from the environment alone, which the next close ends |
| Db.EnsureColumn | api/src/utils/db.ts:58-93 | success exactly when the column is absent or reads back as `vector(dim)`, after which it reads as `vector(dim)`; an absent column is added with exactly the type text `vector(dim)`; only the absent case changes the schema; the two errors carry the type text, or both widths |
| Db.EnsureColumnIdempotent | api/src/utils/db.ts:72-92 | a second call after a successful one succeeds with no schema change |
| Db.EnsureColumnWidthIsFixed | api/src/utils/db.ts:86-91 | after a successful call, a call with another width fails naming both widths and keeps the column |
| Db.SelectAsWritten | api/src/google_food_embedder.ts:49-51 | the first query fails exactly when the table lacks the column |
| Db.SelectPending | api/src/google_food_embedder.ts:49-54 | the first query under a program: as written it fails exactly when the table lacks the column, and otherwise yields the working set; the corrected query always yields the working set |
| Db.AddBranchUnreachable | api/src/google_food_embedder.ts:49-73 | a run that got past that query never takes the adding branch of the schema check |
| Db.EnsureEmbeddingColumn | api/src/utils/db.ts:58-93 | the table's schema and the outcome are those of the decision, and the rows are untouched |
| Batching.BatchesFlatten | api/src/google_food_embedder.ts:78-79 | the batches, concatenated in order, are the working set |
| Batching.BatchesCount | api/src/google_food_embedder.ts:78-79 | the number of batches is the least that covers the list |
| Batching.BatchesSlice | api/src/food_embedder.ts:67-68 | batch `b` is the slice from `b·size` to `min(b·size + size, n)`, holding 1 to `size` names |
| Batching.Batches | api/src/google_food_embedder.ts:78-79 | the slices the batch loop visits; BatchesFlatten, BatchesCount and BatchesSlice state what they are |
| Pooling.MeanPool | api/src/food_embedder.ts:72-81 | one entry per feature of the first token |
| Pooling.PoolAll | api/src/food_embedder.ts:70-82 | one pooled vector per text, in order, as long as that text's first token |
| Pooling.MeanPoolEntry | src/food_embedder.ts:40-44 | entry `i` times the token count is the sum of feature `i` over the tokens |
| Pooling.FeatureSumConcat | src/food_embedder.ts:43 | the feature sum splits over concatenated token lists |
| Pooling.SingleToken | src/food_embedder.ts:42-43 | a single-token text pools to that token |
| Pooling.TwoTokenExample | src/food_embedder.ts:36-44 | `[[1,2],[3,4]]` pools to `[2,3]` |
| Pooling.FeatureSumBounds | src/food_embedder.js:29-35 | a sum of n values between lo and hi lies between n·lo and n·hi |
| Pooling.MeanPoolBounds | src/food_embedder.js:29-35 | each pooled entry lies between the least and the greatest value of its feature |
| Pooling.ConstantTokens | src/food_embedder.js:29-35 | equal tokens pool to that token |
| Pooling.DuplicateTokens | src/food_embedder.js:29-35 | counting every token twice leaves the mean unchanged |
| Pooling.Embed | src/food_embedder.js:26-35 | one pooled vector per food given to the extractor |
| GeminiEmbedder.GetEmbeddings | api/src/google_food_embedder.ts:31-42 | a reply without `embeddings` gives no vectors; otherwise one entry per embedding, its `values`, in order |
| GeminiEmbedder.ProbeDim | api/src/google_food_embedder.ts:66-70 | the width is usable exactly when the probe returned a first vector of length at least 1, and is then its length |
| GeminiEmbedder.Accepted | api/src/google_food_embedder.ts:82-93 | a batch issues at most one update per record, each with a vector of the probed width |
| GeminiEmbedder.AcceptedMembers | api/src/google_food_embedder.ts:82-93 | an update is issued exactly for each record whose vector exists and has the probed width, with that record's name and vector |
| GeminiEmbedder.AcceptedNoVectors | api/src/google_food_embedder.ts:82-85 | a reply with no vectors stores nothing |
| GeminiEmbedder.AcceptedAll | api/src/google_food_embedder.ts:82-93 | when every record passes, every record is stored, in batch order |
| GeminiEmbedder.EmbedBatches | api/src/google_food_embedder.ts:78-95 | the batch loop from a given state: one request per batch, its accepted updates, then one progress line; a failed request ends it; EmbedBatchesFacts states what it adds |
| GeminiEmbedder.EmbedBatchesFacts | api/src/google_food_embedder.ts:78-95 | the batches extend the updates and progress lines already made, add updates of the probed width and at most one per name, and print one line per finished batch |
| GeminiEmbedder.GeminiRun | api/src/google_food_embedder.ts:44-101 | `main` under a program: the first query (as written, failing on a table without the column), the empty exit, the probe, the width check, the schema check and the batches; the lemmas below state its properties |
| GeminiEmbedder.GeminiEarlyExits | api/src/google_food_embedder.ts:49-73 | the first query fails exactly when the job as written meets a table without the column; there is nothing to do exactly when the query succeeds with an empty working set; a failed query, no foods, a failed probe, an unusable width or a refused schema end the run with the schema as it was, no update and no progress line |
| GeminiEmbedder.GeminiCounting | api/src/google_food_embedder.ts:76-95 | at most one update per food; the progress lines never go down and end at the count; a finished run reports the number of updates and printed one line per batch |
| GeminiEmbedder.GeminiWritesFit | api/src/google_food_embedder.ts:82-91 | every update has the probed width and fits the column, so the table keeps its invariant |
| GeminiEmbedder.GeminiAddsColumn | api/src/google_food_embedder.ts:66-78 | the corrected job, on a table without the column, adds it as `vector(dim)` after a usable probe and goes on to embed |
| GeminiEmbedder.GeminiAsWrittenKeepsSchema | api/src/google_food_embedder.ts:49-73 | the job as written never changes the schema; on a table without the column it fails at its first query with no update |
| GeminiEmbedder.StoreBatch | api/src/google_food_embedder.ts:82-93 | the inner loop applies exactly the batch's accepted updates, each as the program's `UPDATE` (as written, `WHERE name = $1`), and counts them |
| GeminiEmbedder.EmbedAll | api/src/google_food_embedder.ts:78-95 | the batch loop's counter, progress lines and failure are those of the batch specification, and the table is the program's updates applied to it |
| GeminiEmbedder.RunGeminiEmbedder | api/src/google_food_embedder.ts:44-101 | `main` under a program leaves the schema, rows, outcome and progress lines that GeminiRun gives for that program; as written, a table without the column fails at the first query |
| LocalEmbedder.ProbeDim | api/src/food_embedder.ts:55-57 | the width is the feature count of the first food's first token, which is the pooled vector's length |
| LocalEmbedder.StoreFrom | api/src/food_embedder.ts:83-91 | the statements of one batch from record `j` on: at most one per remaining record; StoreFromFacts states which |
| LocalEmbedder.StoreFromFacts | api/src/food_embedder.ts:83-91 | a batch stores every record under its own name, in order, unless some pooled vector has the wrong width; then it stops at the first such record, which the datastore refuses |
| LocalEmbedder.LocalBatches | api/src/food_embedder.ts:67-93 | the batch loop from a given state: each batch's stores, then one progress line; a refused store ends it; LocalBatchesFacts and LocalBatchesNames state what it adds |
| LocalEmbedder.LocalBatchesFacts | api/src/food_embedder.ts:67-93 | stored vectors have the column's width; progress lines never go down and never exceed the count; a run without a refusal ends its lines at the count |
| LocalEmbedder.LocalBatchesNames | api/src/food_embedder.ts:67-93 | without a refusal, the batches store one update per food of every batch, in order, and print one line per batch |
| LocalEmbedder.LocalRun | api/src/food_embedder.ts:26-96 | `main` under a program: the first query (as written, failing on a table without the column), the empty exit, the probe, the width check, the schema check and the batches; the lemmas below state its properties |
| LocalEmbedder.LocalEarlyExits | api/src/food_embedder.ts:36-62 | the first query fails exactly when the job as written meets a table without the column; there is nothing to do exactly when the query succeeds with an empty working set; a failed query, no foods, an unusable width or a refused schema end the run with no change |
| LocalEmbedder.LocalAsWrittenKeepsSchema | api/src/food_embedder.ts:36-62 | the job as written never changes the schema; on a table without the column it fails at its first query with no update |
| LocalEmbedder.LocalDoneStoresAll | api/src/food_embedder.ts:64-94 | a finished run stored every food in working-set order, so its counter is the food count; it printed one line per batch; a refused store reports the number of updates already stored |
| LocalEmbedder.LocalRerunFindsNothing | api/src/food_embedder.ts:36-91 | after a finished run, the next run finds no food to embed: always for the corrected job, and for the job as written when every pending row stores its name already trimmed |
| LocalEmbedder.LocalWritesFit | api/src/food_embedder.ts:83-91 | every accepted update fits the column, so the table keeps its invariant |
| LocalEmbedder.StoreBatch | api/src/food_embedder.ts:83-91 | the write loop applies the batch's updates up to the first refusal, each as the program's `UPDATE` (as written, `WHERE name = $1`), and counts them |
| LocalEmbedder.EmbedAll | api/src/food_embedder.ts:64-93 | the batch loop's counter, progress lines and failure are those of the batch specification, and the table is the program's updates applied to it |
| LocalEmbedder.RunLocalEmbedder | api/src/food_embedder.ts:26-96 | `main` under a program leaves the schema, rows, outcome and progress lines that LocalRun gives for that program; as written, a table without the column fails at the first query |
| LegacyFoods.UpdateAllKeys | src/food_embedder.ts:47-55 | updates by name never insert or delete a row |
| LegacyFoods.UpdateAllUnlisted | src/food_embedder.ts:48 | a row whose name is not listed is untouched |
| LegacyFoods.UpdateAllListed | src/food_embedder.ts:47-51 | a listed name with a row gets its own vector and keeps its other columns |
| LegacyFoods.UpsertAllKeys | src/food_embedder.js:37-42 | the table gains exactly the listed names it lacked |
| LegacyFoods.UpsertAllUnlisted | src/food_embedder.js:39 | a row whose name is not listed is untouched, and no unlisted name appears |
| LegacyFoods.UpsertAllListed | src/food_embedder.js:39-40 | every listed name ends up holding its own vector; an existing row keeps its other columns, a new one has none |
| LegacyFoods.Statements | src/food_embedder.js:37-42 | one statement per listed food, in list order, with its vector |
| LegacyFoods.FoodsTable.constructor | src/food_embedder.ts:19-25 | the table starts with its rows and an empty statement log |
| LegacyFoods.FoodsTable.Update | src/food_embedder.ts:48 | an update sets the embedding of the matching row and logs the statement |
| LegacyFoods.FoodsTable.Upsert | src/food_embedder.js:39 | an upsert sets the embedding, inserting a row when the name is new, and logs the statement |
| LegacyUpdateEmbedder.FoodsDistinct | src/food_embedder.ts:6-12 | the five hard-coded names are distinct |
| LegacyUpdateEmbedder.Run | src/food_embedder.ts:27-55 | one pooled vector per food, and one update statement per food in list order |
| LegacyUpdateEmbedder.RunEffect | src/food_embedder.ts:47-55 | no row is added or removed, unlisted rows are untouched, and each listed food with a row holds its own pooled vector |
| LegacyUpdateEmbedder.TrailingSpaceMatters | src/food_embedder.ts:8-48 | a row named "Acai berry juice" is not reached by the listed "Acai berry juice " |
| LegacyUpsertEmbedder.FoodsDistinct | src/food_embedder.js:6-13 | the six hard-coded names are distinct |
| LegacyUpsertEmbedder.Run | src/food_embedder.js:26-42 | one pooled vector per food, and one upsert statement per food in list order |
| LegacyUpsertEmbedder.RunEffect | src/food_embedder.js:37-42 | exactly the missing listed names are inserted, every listed food holds its own pooled vector, existing rows keep their other columns, and unlisted rows are untouched |
| TextMatch.Scrub | api/src/test/mrr.test.ts:58 | each character outside `a-z`, `0-9` and white space becomes a space, one for one |
| TextMatch.CollapseShape | api/src/test/mrr.test.ts:59 | collapsing white-space runs leaves only single spaces |
| TextMatch.CollapseFixes | api/src/test/mrr.test.ts:59 | a string with only single spaces is unchanged by collapsing |
| TextMatch.Normalize | api/src/test/mrr.test.ts:55-61 | `normalize`: lower-case, scrub, collapse white space, trim; NormalizeIsNormalized, NormalizeFixes and NormalizeIdempotent state what it yields |
| TextMatch.NormalizeIsNormalized | api/src/test/mrr.test.ts:55-61 | `normalize` yields only `a-z`, `0-9` and single spaces, with no space at either end |
| TextMatch.NormalizeFixes | api/src/test/mrr.test.ts:55-61 | a string of that shape is its own normal form |
| TextMatch.NormalizeIdempotent | api/src/test/mrr.test.ts:55-61 | normalising twice is normalising once |
| TextMatch.SplitFrom | api/src/test/mrr.test.ts:65 | splitting gives at least one word, the empty string included |
| TextMatch.JoinWords | api/src/test/mrr.test.ts:65 | joining the words with single spaces gives back the string, and no word holds a space |
| TextMatch.WordsJoin | api/src/test/mrr.test.ts:65 | splitting a join of space-free words gives back the words |
| TextMatch.WordsOccur | api/src/test/mrr.test.ts:65 | every word occurs in the string it was split from |
| TextMatch.NameMatches | api/src/test/mrr.test.ts:62-67 | `nameMatches`: some word of at least three characters of the normalised expected name occurs in the normalised candidate; the Match lemmas state its properties |
| TextMatch.MatchNeedsThreeChars | api/src/test/mrr.test.ts:62-67 | a match needs both normalised names to have at least three characters, so a shorter expected name matches nothing |
| TextMatch.MatchesItself | api/src/test/mrr.test.ts:62-67 | a name matches itself exactly when its normal form has a word of at least three characters |
| TextMatch.MatchIgnoresNormalization | api/src/test/mrr.test.ts:62-67 | normalising either name first does not change the verdict |
| TextMatch.MatchExtends | api/src/test/accuracy.test.ts:104-114 | a candidate whose normal form contains a matching candidate's normal form matches too |
| TextMatch.IdaredAppleExample | api/src/test/accuracy.test.ts:108-111 | "apple pie" matches the expected "idared apple" |
| Samples.CollectPrefix | api/src/test/mrr.test.ts:124-140 | later events only append pairs |
| Samples.Sample | api/src/test/mrr.test.ts:124-140 | the first 5000 pairs of the deduplicated collection; BuildSample computes it, and the Collect lemmas state what its pairs are |
| Samples.BuildSample | api/src/test/mrr.test.ts:124-140 | the loop with its `seen` set and its early stop yields the first 5000 pairs of the uncapped collection |
| Samples.SampleBounded | api/src/test/accuracy.test.ts:161 | the sample has at most 5000 pairs |
| Samples.CollectTake | api/src/test/accuracy.test.ts:146-162 | every pair of a shorter event list is a pair of a longer one |
| Samples.CollectWellFormed | api/src/test/mrr.test.ts:127-133 | every pair holds a trimmed term and a trimmed food name, each of at least three characters |
| Samples.CollectDistinct | api/src/test/mrr.test.ts:133-137 | no two pairs have the same lower-cased term |
| Samples.CollectCovers | api/src/test/accuracy.test.ts:146-160 | every eligible event's lower-cased term is represented by some pair |
| Samples.CollectFirstOccurrence | api/src/test/accuracy.test.ts:146-160 | each pair comes from the first eligible event with its lower-cased term |
| Requests.FetchWithRetries | api/src/test/mrr.test.ts:155-190 | the loop's result is the retry specification's |
| Requests.RetryFrom | api/src/test/accuracy.test.ts:175-193 | from a given attempt on, an answer is the reply to an attempt between that one and the fifth, and is not a 503 |
| Requests.RetryAnswered | api/src/test/accuracy.test.ts:175-213 | from any attempt on, the answer is the first reply that is not a 503, and giving up happens exactly when every remaining attempt is a 503 |
| Requests.FetchOutcome | api/src/test/accuracy.test.ts:175-219 | the answer comes on attempt 1 to 5 and is the first non-503 reply; the loop gives up exactly when all five replies are 503, so the fall-through after the loop is never reached |
| Ranking.Limit | api/src/test/mrr.test.ts:75 | the number of positions examined is `min(k, n)`, and none for a non-positive `k` |
| Ranking.RR | api/src/test/mrr.test.ts:70-83 | one over the one-based position of the first match among the first `min(k, n)` results, or 0; RRMeaning and RRRange state its meaning |
| Ranking.ReciprocalRankAtK | api/src/test/mrr.test.ts:70-83 | the loop returns the reciprocal rank of the specification |
| Ranking.FirstHitSpec | api/src/test/mrr.test.ts:75-81 | the search finds the least matching position in range, and finds none exactly when no position in range matches |
| Ranking.RRMeaning | api/src/test/mrr.test.ts:70-83 | the score is positive exactly when a match lies in the top `k`, and is then one over the one-based position of the first match |
| Ranking.RRRange | api/src/test/mrr.test.ts:70-83 | the score lies in [0, 1] |
| Ranking.RRNothingToRank | api/src/test/mrr.test.ts:75-82 | a non-positive `k` or an empty list scores 0 |
| Ranking.RRMonotone | api/src/test/mrr.test.ts:70-83 | the score never decreases as `k` grows |
| Ranking.RRTop | api/src/test/mrr.test.ts:176-182 | for `k` at most `m`, cutting the list to its first `m` entries does not change the score |
| MrrTest.Worker | api/src/test/mrr.test.ts:148-190 | the worker's result is the worker specification's |
| MrrTest.WorkerResult | api/src/test/mrr.test.ts:148-190 | the worker's result: zero ranks after five 503 replies, a failed expectation on a reply that is not a 200 with an array, otherwise the ranks at 1, 10 and 50; the Worker lemmas state its properties |
| MrrTest.WorkerRanksValid | api/src/test/mrr.test.ts:176-182 | every reported rank lies in [0, 1], and the ranks at 1, 10 and 50 never decrease |
| MrrTest.WorkerRanksWholeReply | api/src/test/mrr.test.ts:176-182 | the cut to the top 50 changes no rank |
| MrrTest.WorkerEdgeCases | api/src/test/mrr.test.ts:160-175 | five 503 replies give zero ranks; a first non-503 reply that is not a 200 with an array fails the test |
| MrrTest.Denominator | api/src/test/mrr.test.ts:201 | `results.length \|\| 1` is at least 1 and equals a positive length |
| MrrTest.Aggregate | api/src/test/mrr.test.ts:195-204 | the three means are the totals at 1, 10 and 50 divided by the denominator |
| MrrTest.TotalBounds | api/src/test/mrr.test.ts:195-200 | a total of valid ranks lies between 0 and the number of queries |
| MrrTest.TotalOrdered | api/src/test/mrr.test.ts:195-200 | the total at 1 is at most the total at 10, which is at most the total at 50 |
| MrrTest.MeanInRange | api/src/test/mrr.test.ts:201-217 | each mean of valid ranks lies in [0, 1] |
| MrrTest.MeansOrdered | api/src/test/mrr.test.ts:195-204 | MRR@1 is at most MRR@10, which is at most MRR@50 |
| MrrTest.RunMrrTest | api/src/test/mrr.test.ts:114-218 | the test passes exactly when the sample is non-empty and no worker fails an expectation, so its range checks never fail |
| AccuracyTest.Worker | api/src/test/accuracy.test.ts:167-220 | the worker's verdict is the verdict specification's |
| AccuracyTest.VerdictOf | api/src/test/accuracy.test.ts:175-213 | a query's verdict: `503-initializing` after five 503 replies, a failed expectation on a bad reply, otherwise found or not found; a passed verdict is ok exactly when its reason is `found` |
| AccuracyTest.VerdictMatchesRank | api/src/test/accuracy.test.ts:198-212 | a query succeeds exactly when its reciprocal rank at 50 is positive, and exactly then its reason is `found` |
| AccuracyTest.VerdictInitializing | api/src/test/accuracy.test.ts:182-190 | five 503 replies fail the query with the reason `503-initializing` |
| AccuracyTest.Successes | api/src/test/accuracy.test.ts:224-225 | the successes never exceed the total |
| AccuracyTest.SuccessesCount | api/src/test/accuracy.test.ts:224 | every query succeeds exactly when the count is the total, and none does exactly when it is 0 |
| AccuracyTest.ThresholdInIntegers | api/src/test/accuracy.test.ts:228-240 | with a positive total, the rate is at least 0.85 exactly when 20 times the successes is at least 17 times the total |
| AccuracyTest.VerdictsMeaning | api/src/test/accuracy.test.ts:222 | the verdicts of the sample exist exactly when no worker fails an expectation, and are then one per pair, each that pair's worker verdict, in order |
| AccuracyTest.RunAccuracyTest | api/src/test/accuracy.test.ts:95-241 | the test passes exactly when the sample is non-empty, no worker fails an expectation, and at least 85% of the verdicts the workers give on that sample are successes, all stated over the inputs; when no worker fails, the returned verdicts are the workers' own |

## Left out

- Connections, SQL text, the catalogue query and the transport of vectors as text are not modelled. The schema is a map from column name to type text, and the rows are a sequence.
- The catalogue query matches the table by name in any schema namespace. The model has one table, so a same-named table elsewhere is not modelled.
- getFoodTableName is called by the jobs but is not part of this model. The food table is a parameter.
- Creating the Gemini client and the feature-extraction pipeline, model loading and the cache directory are not modelled: these are calls into code that cannot be seen. An error thrown by the extractor is not modelled either. The Gemini service may fail a request, and that failure is modelled.
- LocalEmbedder.ProbeDim: requires the extractor to return at least one equally long token vector per text (`ExtractorShape`). The code indexes the first token and would throw on other output.
- The environment is not read. The database settings, the model id and the shared client's settings are parameters. The `process.exit` on a missing Gemini key is not modelled. The `Number(PGPORT)` of a missing port (NaN) is not modelled either.
- Db.MergeConfig: a field supplied explicitly as `undefined` counts as not supplied. JavaScript's spread would copy the `undefined`.
- VectorTypes.ParseVectorWidth: gives the exact value of very long digit strings. JavaScript's `Number` would round them.
- Db.Client.End: a failure while ending is not modelled. The code swallows it.
- Logging, the progress messages' text and `writeFileSync` of embeddings.json are not modelled. A progress line is modelled as the counter value it prints.
- Floating point, NaN and `Number.isFinite` are not modelled. Numbers are reals, so `Number.isFinite` always holds and the width checks reduce to `dim >= 1`.
- The local job's second `foods.length === 0` test cannot be reached and has no counterpart.
- LegacyFoods.FoodsTable.Update: the datastore refusing a vector of the wrong width is not modelled for the early scripts. The width of their `embedding` column is not stated in them.
- The servers (`api/src/server.ts`, `src/server.js`), the readiness polling `waitForAPI`, the health checks and the other test files are not modelled. The only computation the servers do is the same mean pooling.
- `runPool` runs the workers ten at a time. The model runs them one after another. Both keep the results in item order, and any failed expectation fails the test.
- Requests.FetchWithRetries: the waits of `1000 × attempt` ms between attempts are not modelled.
- AccuracyTest.Worker: the diagnostic `sample` field and the echoed term and food name are not part of the verdict. A `null` entry in the top 50 is treated as an entry without a name. The code's `top.map((r) => r.name)` would throw on it.
- The `'exhausted'` fall-through after both retry loops has no counterpart, because it is unreachable. FetchWithRetries proves this with its `assert false` after the loop.
- Case mapping and white space are ASCII only. The Unicode `toLowerCase` and the Unicode `\s` and `trim` classes are not modelled. A non-ASCII character counts as "other".
- Strings are sequences of characters, not UTF-16 code units.
- JSON parsing is not modelled. A reply body is either an array of entries, each either a string name or no name, or not an array.

## Findings

| source | as written | input that shows it | evidently intended | confidence | as-written member | corrected member |
|---|---|---|---|---|---|---|
| api/src/google_food_embedder.ts:49-73 | Both jobs select `WHERE <column> IS NULL` before `ensureEmbeddingColumn` (also api/src/food_embedder.ts:36-62). PostgreSQL refuses a condition on a column the table lacks, so the ADD COLUMN branch of api/src/utils/db.ts:72-77 cannot be reached from either job. | a food table without the model's column: the first query fails before the column could be added | on a table without the column, every row counts as pending, and the schema check adds the column | not executed; high | Db.SelectAsWritten, Db.AddBranchUnreachable, GeminiEmbedder.GeminiAsWrittenKeepsSchema | Db.SelectPending, GeminiEmbedder.GeminiAddsColumn |
| api/src/google_food_embedder.ts:52-92 | The working set holds trimmed names, but `UPDATE ... WHERE name = $1` compares them with the stored, untrimmed names (also api/src/food_embedder.ts:39-90). A padded name is never updated, yet the counter counts it, and the next run selects it again. | a row whose name is " apple": its update reaches no row | the update reaches the rows whose name trims to the working-set name, so a finished run leaves nothing pending | not executed; medium | Storage.UpdateByName, Storage.UpdateByNameMissesPaddedName | Storage.UpdateByTrimmedName, LocalEmbedder.LocalRerunFindsNothing |
