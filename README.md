# Todo MCP server: a verified model of its todo tools

TodoMCPServer is an ASP.NET service that keeps a list of todo records in an
in-memory Entity Framework store and offers the same operations twice: as HTTP
endpoints at the application root (a `/todoitems` route group is created but no
route is added to it) and as Model Context Protocol tools. Both call the
static class `TodoTools`. It has eleven operations:

- four queries: list all, optionally filtered by the status "completed"; look one up by key; look up several keys; search by name;
- five mutators: add, update, batch update, delete, mark complete;
- a completed-only listing;
- an existence check.

A record has an integer key, an optional name, a completion flag and an optional tag.

This project models those operations in Dafny and proves what each promises.

- `Text`: ASCII case folding and substring containment. The status filter and the name search use them.
- `TodoModel`:
  - the record and the `Option` and `Result` types;
  - the store as a sequence of records with distinct keys, in the order the store enumerates them;
  - LINQ `Where` as an order-keeping filter;
  - primary-key lookup (`FindAsync`) as `IndexOf`.
- `TodoTools`: the queries, as functions of the store's records.
- `TodoTransitions`: each mutator as a function from the records before the call to a `Step`. A step is the response plus the records after the save. The lemmas state what the mutators promise: what is found, what changes, what stays, and the not-found path.
- `TodoStore`: the store as a class `TodoDb`. Its records and its key counter are fields. Its methods change them in place, and each method is proved to take exactly its `TodoTransitions` step. The batch update is a loop with invariants.
- `Seed`: the ten records the host adds at start-up (`Program.cs:14-23`) and scenarios over them.

Some facts the model follows from the code:

- The status comparison ignores case (`OrdinalIgnoreCase`). For the word "completed", ASCII folding gives exactly the same comparison.
- The seeding code marks five records complete (keys 2, 4, 6, 8 and 10).
- The batch update collects the tracked entities themselves. If a key appears more than once, every answer slot for it shows the record as it stands after the whole batch, not after that one input.
- The batch update copies name and completion but not the tag. The single update copies all three.
- The update keeps the stored key whatever key the input carries.

The `Todo` entity and the `TodoDb` context are declared in files that are not part of this model. Their fields are taken from how `TodoTools` uses them.

## Model

| member | source | states |
|---|---|---|
| Text.LowerChar | Tools/TodoService.cs:108 | an upper-case letter becomes the lower-case letter at the same place in the alphabet ('G' becomes 'g'); every other character is kept |
| Text.ToLower | Tools/TodoService.cs:108 | lower-casing keeps the length and lower-cases each character in place |
| Text.EqualsIgnoreCase | Tools/TodoService.cs:77 | strings equal up to case have the same length, and equal strings are equal up to case |
| Text.Contains | Tools/TodoService.cs:108 | a string contains only queries no longer than itself |
| Text.ContainsEmpty | Tools/TodoService.cs:108 | every string contains the empty string |
| TodoModel.Where | Tools/TodoService.cs:79 | the filter keeps exactly the records satisfying the predicate, in store order, never more than the store holds |
| TodoModel.IndexOf | Tools/TodoService.cs:91 | key lookup gives -1 exactly when no record has the key, otherwise the first position holding it |
| TodoModel.WhereCongruent | Tools/TodoService.cs:107-109 | filters whose predicates agree on every stored record give the same answer |
| TodoModel.WhereAll | Tools/TodoService.cs:161-171 | a filter that every record passes returns the whole store |
| TodoModel.WhereMultiset | Tools/TodoService.cs:79 | the filter keeps each passing element as often as it occurs and drops every other element |
| TodoModel.WhereSnoc | Tools/TodoService.cs:144-153 | filtering a sequence with one more element at the end is filtering the front and then testing that element |
| TodoModel.WhereCount | Tools/TodoService.cs:144-153 | the filter's answer has one element per position whose element passes |
| TodoModel.SubseqUniqueIds | Tools/TodoService.cs:79 | a filtered answer from a store with distinct keys has distinct keys |
| TodoModel.SubseqMembers | Tools/TodoService.cs:79 | every record of a filtered answer is a stored record |
| TodoModel.UniqueIdsCount | Tools/TodoService.cs:99 | with distinct keys, the number of records equals the number of keys |
| TodoModel.IndexOfRecord | Tools/TodoService.cs:91 | with distinct keys, each record is found by its own key at its own position |
| TodoTools.IsCompletedStatus | Tools/TodoService.cs:77 | the filter is switched on only by a status of the length of "completed" |
| TodoTools.NameMatches | Tools/TodoService.cs:108 | only a record with a name at least as long as the query can match |
| TodoTools.GetCompletedTodos | Tools/TodoService.cs:175-179 | the answer is exactly the completed records, in store order |
| TodoTools.GetAllTodos | Tools/TodoService.cs:75-85 | with status "completed" in any case, the answer is the completed-only listing; with any other status or none, it is every record |
| TodoTools.GetTodoById | Tools/TodoService.cs:89-93 | the answer is a record exactly when the key is stored; that record is stored and has the key |
| TodoTools.TodoExists | Tools/TodoService.cs:197-201 | true exactly when the key is stored, which is exactly when the single lookup finds a record |
| TodoTools.GetTodosByIds | Tools/TodoService.cs:97-101 | the answer is exactly the stored records whose key is listed, in store order; unknown keys are dropped without error |
| TodoTools.SearchTodosByName | Tools/TodoService.cs:105-111 | the answer is exactly the named records whose lower-cased name contains the lower-cased query, in store order; it is empty exactly when none matches; unnamed records never match |
| TodoTools.GetTodoByIdFindsRecord | Tools/TodoService.cs:89-93 | with distinct keys, looking up any stored record's key answers that record |
| TodoTools.CompletedStatusSpellings | Tools/TodoService.cs:77 | "completed", "COMPLETED" and "Completed" switch the filter on; "complete", the empty status and no status do not |
| TodoTools.GetTodosByIdsCount | Tools/TodoService.cs:97-101 | the answer has one record per distinct stored key among the requested keys, however often a key is repeated |
| TodoTools.SearchIgnoresQueryCase | Tools/TodoService.cs:108 | queries equal up to case give the same answer |
| TodoTools.SearchSingleMatch | Tools/TodoService.cs:105-111 | when exactly one record matches, the answer is that record alone |
| TodoTools.SearchEmptyQuery | Tools/TodoService.cs:108 | the empty query finds exactly the records that have a name |
| TodoTransitions.Overwritten | Tools/TodoService.cs:129-131 | the update keeps the record's key and takes name, completion and tag from the input |
| TodoTransitions.BatchOverwritten | Tools/TodoService.cs:149-150 | the batch keeps the record's key and tag and takes name and completion from the input |
| TodoTransitions.Completed | Tools/TodoService.cs:188 | completing sets the flag and keeps key, name and tag |
| TodoTransitions.Replace | Tools/TodoService.cs:129-131 | overwriting keeps the length and the key at each position; a position whose key is the new record's holds it, and any changed position holds it |
| TodoTransitions.Without | Tools/TodoService.cs:166 | removal keeps exactly the records with another key, in store order |
| TodoTransitions.AddOp | Tools/TodoService.cs:115-120 | adding appends the answered record, which carries the fresh key and the input's name, completion and tag |
| TodoTransitions.UpdateOp | Tools/TodoService.cs:124-136 | the update answers a record exactly when the key is stored, leaves the store as it was otherwise, and never changes the number of records |
| TodoTransitions.BatchStep | Tools/TodoService.cs:146-152 | one pass keeps the number of records, and an input with an absent key leaves the store as it was |
| TodoTransitions.BatchStore | Tools/TodoService.cs:144-153 | the whole loop keeps the number of records |
| TodoTransitions.BatchOp | Tools/TodoService.cs:140-157 | the batch answers at most one record per input and keeps the number of records |
| TodoTransitions.DeleteOp | Tools/TodoService.cs:161-171 | the delete answers a record exactly when the key is stored, and keeps exactly the records with another key |
| TodoTransitions.CompleteOp | Tools/TodoService.cs:183-193 | completing answers a record exactly when the key is stored, that record is complete and has the key; otherwise the store is as it was; the number of records is kept |
| TodoTransitions.BatchHits | Tools/TodoService.cs:144-153 | the keys the batch collects are exactly the stored keys named by some input; there are never more of them than inputs |
| TodoTransitions.BatchHitsInInputOrder | Tools/TodoService.cs:144-153 | the collected keys are exactly the keys of the inputs whose key is stored, one per such input, in input order, repeats kept |
| TodoTransitions.BatchAnswerCount | Tools/TodoService.cs:142-156 | the answer has as many records as there are inputs whose key is stored |
| TodoTransitions.RecordsOf | Tools/TodoService.cs:151 | the answer holds one stored record per collected key, in order, each with that key |
| TodoTransitions.ReplaceLookup | Tools/TodoService.cs:129-131 | overwriting one record keeps the key set and its distinctness; its key then finds the new record, and every other key finds what it found before |
| TodoTransitions.ReplaceUnchanged | Tools/TodoService.cs:188 | overwriting a record with itself changes nothing |
| TodoTransitions.ReplaceAt | Tools/TodoService.cs:129-131 | with distinct keys, overwriting by key is assigning at the record's position |
| TodoTransitions.AddThenGet | Tools/TodoService.cs:115-120 | adding under a fresh key answers the input under that key with its name, completion and tag; the key set grows by that key, keys stay distinct, the key finds the answered record, and every other lookup is unchanged |
| TodoTransitions.UpdateMissing | Tools/TodoService.cs:126-128 | updating an absent key answers not-found and leaves the store as it was |
| TodoTransitions.UpdateFound | Tools/TodoService.cs:126-135 | updating a stored key answers the record with the stored key and the input's name, completion and tag, and the lookup then finds it; every other record is unchanged; the key set is kept |
| TodoTransitions.BatchKeepsKeys | Tools/TodoService.cs:144-153 | the batch neither adds nor removes a key, and keeps keys distinct |
| TodoTransitions.BatchUntouched | Tools/TodoService.cs:144-153 | a record whose key no input names comes out unchanged |
| TodoTransitions.BatchKeepsTags | Tools/TodoService.cs:149-150 | the batch never changes a record's tag and never removes a record |
| TodoTransitions.BatchLastWriteWins | Tools/TodoService.cs:144-153 | when an input is the last to name a stored key, that record ends with the input's name and completion, its own key and its original tag |
| TodoTransitions.BatchResponse | Tools/TodoService.cs:142-156 | the answer has one record per collected key, and the collected keys are the keys of the inputs whose key is stored, in input order; each answer record is the record under its key after the batch; inputs naming absent keys add nothing |
| TodoTransitions.BatchHitThenMiss | Tools/TodoService.cs:144-156 | a batch of a stored key and then a missing one answers only the stored record, with the first input's name and completion and its own tag; the missing key stays absent |
| TodoTransitions.DeleteSpec | Tools/TodoService.cs:161-171 | deleting answers what a lookup answered before; afterwards the key is absent and the key set loses exactly that key; other lookups are unchanged; an absent key gives not-found and an unchanged store |
| TodoTransitions.WithoutCons | Tools/TodoService.cs:166 | removing a key that is not the first record's keeps the first record in front |
| TodoTransitions.WithoutFirst | Tools/TodoService.cs:166 | with distinct keys, removing the first record's key leaves exactly the other records |
| TodoTransitions.WithoutAt | Tools/TodoService.cs:166 | with distinct keys, removing by key is cutting the record out at its position |
| TodoTransitions.CompleteSpec | Tools/TodoService.cs:183-193 | completing a stored key answers the record with its flag set and name and tag kept, and the lookup then finds it; other records are unchanged; an absent key gives not-found and an unchanged store |
| TodoTransitions.CompleteIdempotent | Tools/TodoService.cs:183-193 | completing twice gives the same answer and store as completing once |
| TodoTransitions.CompletedKeys | Tools/TodoService.cs:177 | the completed-only listing holds exactly the keys whose record is complete, each once |
| TodoTransitions.CompletedKeysAfterComplete | Tools/TodoService.cs:183-193 | completing a stored record adds its key to the completed keys and changes no other key's membership |
| TodoTransitions.CompleteCountsOneMore | Tools/TodoService.cs:183-193 | completing grows the completed-only listing by one exactly when the record is stored and incomplete, and by none otherwise |
| TodoStore.TodoDb.constructor | Program.cs:32 | a new store is empty and will hand out key 1 first |
| TodoStore.TodoDb.AddTodoItem | Tools/TodoService.cs:115-120 | the store stays valid; the input is stored under a key that was not stored before, and it is answered with that key; the key counter only grows; the new state is the add step |
| TodoStore.TodoDb.UpdateTodoItem | Tools/TodoService.cs:124-136 | the store stays valid and its key counter unchanged; the answer and the new records are the update step |
| TodoStore.TodoDb.BatchUpdateTodoItems | Tools/TodoService.cs:140-157 | the loop visits the inputs in order and then reads the collected records; the store stays valid; the answer and the new records are the batch step |
| TodoStore.TodoDb.DeleteTodoItem | Tools/TodoService.cs:161-171 | the store stays valid; the answer and the new records are the delete step |
| TodoStore.TodoDb.CompleteTodoItem | Tools/TodoService.cs:183-193 | the store stays valid; the answer and the new records are the complete step |
| Seed.SeedTodos | Program.cs:14-23 | the ten seeded records have distinct keys 1 to 10 |
| Seed.SeedIsShaped | Program.cs:14-23 | the seed's keys run 1 to 10 in order, and exactly the even-keyed records are complete |
| Seed.ShapedCompletedKeys | Program.cs:14-23 | in a seed-shaped store the completed keys are 2, 4, 6, 8 and 10 |
| Seed.SeedCompleted | Program.cs:14-23 | the seed has five completed records; completing record 1 makes six, and completing it again changes nothing |
| Seed.SeedGymMatches | Program.cs:20 | of the seeded records only "Go to the gym" matches the query "gym" |
| Seed.SeedSearchGym | Program.cs:20 | searching the seed for "gym" answers exactly "Go to the gym" |
| Seed.SeedSearchGymUpper | Program.cs:20 | searching the seed for "GYM" gives the same single record |
| Seed.SeedBatchSkipsMissing | Program.cs:14 | a batch over the seed naming keys 1 and 9999 answers only record 1 with the new values; 9999 is still absent |

## Left out

- HTTP routing and the MCP wiring: the `MapEndPoints` routes, the tool attributes and the transports. The model starts where `TodoTools` is called, and it models `IResult` as `Ok` or `NotFound`.
- Host start-up: `Program.cs` outside the seed records and the in-memory store.
- Asynchrony and saving: each call's `await` and `SaveChangesAsync` are folded into one step. A store fault during a save is not modelled.
- Concurrent requests: not modelled. Each operation is one atomic step.
- Key generation: the in-memory provider's value generator is modelled as a counter that starts at 1 and grows by one per add.
- TodoStore.TodoDb.AddTodoItem: the model always assigns the next key. A caller-supplied non-zero key, which Entity Framework would keep or reject as a duplicate, is not modelled.
- Text.ToLower: lower-cases ASCII letters only. `string.ToLower` follows the current culture and Unicode case mappings, so the name search's result for non-ASCII names is not modelled.
- Null arguments: a null search name, a null key array or a null input record would throw. These cases are not modelled; the model's parameters are never null.
- Integer keys are unbounded in the model. The 32-bit key space and its overflow after 2^31 - 1 adds are not modelled.
- Store order: the order the in-memory provider lists records is modelled as insertion order.
