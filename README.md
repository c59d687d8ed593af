# Task-mapping work-item queue

A model of the enqueue logic of `ProjectTaskMappingWorkItem` in selected-tests. A work item
asks for later analysis of which Evergreen tasks a project's changed source files map to.
The factory stamps the item's creation time. The serialiser turns the item into a Mongo
document that holds only the fields that are set. The insert submits that document to a
queue collection whose unique index makes a repeated request a no-op that returns `False`.

Files:

- `wrappers.dfy`: `Option`, which stands for Python's `None` or a supplied value.
- `store.dfy`: the abstract document store. It has document values (a timestamp, a string,
  or null for a key written with `None`) and documents as maps from field name to value.
  `IndexKey` is a document's entry in a compound index: a missing field is indexed as null,
  as Mongo does. `Accept` is what the store does with a new document, and `Collection` is
  the class whose `InsertOne` plays `insert_one`. The class invariant `Valid` is the unique
  index's guarantee: no two stored documents share an index entry.
- `work_item.dfy`: the `WorkItem` datatype. Its constructor plays `__init__`, which only
  stores its eight arguments. The module also holds the factory `NewTaskMappings`, the
  serialiser `ToDocument`, the method `Insert`, the retention constant `WorkItemTtl`, and
  lemmas about which items the unique index treats as duplicates.

Modelling decisions:

- Python truthiness of the optional strings is the predicate `Truthy`: `None` and `""` are
  both false.
- `datetime.utcnow()` becomes the parameter `now`. Timestamps are integers.
- The unique index is defined in `setup_indexes`, which is not part of this model. It is an
  assumption about the store. The store's index fields are a constructor parameter, and the
  queue's index is `IdentifyingFields`: every persisted field except `created_on`,
  `start_time` and `end_time`.
- `insert_one`'s outcome is explicit: a result carrying `acknowledged`, a duplicate-key
  error, or another storage error. Another storage error is chosen by the caller through the
  `failure` parameter. It stands for whatever the server or network does, and `insert` lets
  it propagate as `Raised`. A failure also says whether the write took effect before the
  error was raised, as it can after a write-concern error or a network error once the command
  was sent; so a raised error does not promise that the document was not stored.
- `result.acknowledged` is the collection's write concern (`acknowledgesWrites`). With an
  unacknowledged write concern, the server still applies the unique index, but `insert_one`
  raises no duplicate-key error and reports `acknowledged == False`.

## Model

| member | source | states |
|---|---|---|
| `WorkItems.WorkItem.NewTaskMappings` | src/selectedtests/work_items/project_task_mapping_work_item.py:46-74 | the new item has `start_time` and `end_time` unset, `created_on` equal to the supplied clock value, and the other five arguments stored unchanged; the optional ones default to `None` |
| `WorkItems.WorkItem.ToDocument` | src/selectedtests/work_items/project_task_mapping_work_item.py:84-93 | the document always holds `created_on`, `project` and `source_file_regex` with the item's values; `module` and `module_source_file_regex` are present if and only if `module` is truthy, and then `module_source_file_regex` holds `NullableStr` of the item's module pattern, which is null for `None`, so the key is written even then; `build_variant_regex` is present if and only if it is truthy; `start_time` and `end_time` never appear; no key beyond the six persisted fields |
| `WorkItems.WorkItem.Insert` | src/selectedtests/work_items/project_task_mapping_work_item.py:76-98 | builds the document field by field and submits it; if no stored document has the same identifying fields, exactly that document is appended and the acknowledgement is returned; if one does, `false` is returned and the collection is unchanged; any other storage error is raised, and the collection then either is unchanged or (when the item was not queued) has the document appended, the latter only if the write took effect before the error; the unique index stays intact |
| `WorkItems.SameIndexKeyIffSameRequest` | src/selectedtests/work_items/project_task_mapping_work_item.py:84-93 | two items' documents collide in the unique index if and only if they have the same project and source pattern, the same truthy module (with the same module pattern) or both none, and the same truthy build-variant pattern or both none |
| `WorkItems.TimestampsDoNotIdentify` | src/selectedtests/work_items/project_task_mapping_work_item.py:84-88 | items that differ only in `created_on`, `start_time` or `end_time` are duplicates |
| `WorkItems.ModulePresenceDistinguishes` | src/selectedtests/work_items/project_task_mapping_work_item.py:89-91 | an item with a truthy module is never a duplicate of one without |
| `WorkItems.InsertTwiceStoresOne` | src/selectedtests/work_items/project_task_mapping_work_item.py:94-98 | submitting the same item twice to a store with the queue's unique index leaves it as one submission does, holding exactly one document for the item |
| `WorkItems.EnqueueSameItemTwice` | src/selectedtests/work_items/project_task_mapping_work_item.py:65-98 | on an empty queue, a new item's first insert returns `true`, the second returns `false`, and one document is stored |
| `WorkItems.EnqueueWithAndWithoutModule` | src/selectedtests/work_items/project_task_mapping_work_item.py:65-98 | a request without a module and the same request with a module both insert with `true`, and two documents are stored |
| `WorkItems.WorkItemTtlIsTwoWeeks` | src/selectedtests/work_items/project_task_mapping_work_item.py:8 | the retention constant is two weeks, 1,209,600 seconds |
| `Store.Collection.InsertOne` | src/selectedtests/work_items/project_task_mapping_work_item.py:94-98 | the store's side of `insert_one` as the item uses it: a document whose index entry is new is appended and acknowledged per the write concern; a duplicate is refused with a duplicate-key error (or `acknowledged == False` when writes are unacknowledged); another failure raises its error, and the document is accepted as above if the write took effect before the failure and not otherwise; uniqueness is kept |
| `Store.IndexKeyEqualIff` | src/selectedtests/work_items/project_task_mapping_work_item.py:94-98 | two documents collide in a compound unique index exactly when they agree, field by field, with a missing field read as null |
| `Store.AcceptKeepsUnique` | src/selectedtests/work_items/project_task_mapping_work_item.py:94-98 | accepting a document keeps the index unique, and afterwards a document with its entry is stored |
| `Store.AcceptIdempotent` | src/selectedtests/work_items/project_task_mapping_work_item.py:94-98 | submitting the same document twice leaves the store as one submission does |
| `Store.ExactlyOneAfterAccept` | src/selectedtests/work_items/project_task_mapping_work_item.py:94-98 | after a document is accepted into a unique store, exactly one stored document has its index entry |

## Left out

- Logging through `structlog`: it records the project being enqueued and has no functional effect.
- The real pymongo client: `Collection` is an abstract store with one unique index. The `_id` that `insert_one` adds to the submitted dict is not modelled.
- The wall clock: the creation time is a parameter.
- Expiry: the storage engine deletes documents in the background once `WorkItemTtl` has passed since `created_on`. Only the constant is modelled.
- `WorkItemTtlIsTwoWeeks`: `total_seconds()` returns a float in Python; the model uses the integer 1,209,600.
- Concurrent enqueuers: each `InsertOne` is one atomic step of the store, and interleavings are not modelled.
- `setup_indexes` and its index definitions are not part of this model. The unique index over the identifying fields is assumed, as the class invariant `Collection.Valid`.
- src/selectedtests/datasource/datasource_cli.py: command-line parsing, connection bootstrap and logging setup.
- Python's dynamic typing: `project` and `source_file_regex` are strings, and the optional fields are optional strings. No other value types are considered.
