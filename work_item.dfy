/**
  The task-mapping work item: a request, queued in a Mongo collection, to analyse which
  tasks a project's changed source files map to. An item is built by a factory that stamps
  its creation time, serialised into a document that carries only the fields that are set,
  and inserted so that a second request with the same identifying fields is a no-op.
 */
module WorkItems {
  import opened Wrappers
  import opened Store

  const SecondsPerDay: nat := 24 * 60 * 60
  const DaysPerWeek: nat := 7

  /** `timedelta(weeks=w).total_seconds()`. */
  function WeeksToSeconds(weeks: nat): nat {
    weeks * DaysPerWeek * SecondsPerDay
  }

  /** How long a queued item is retained after `created_on`: two weeks. */
  const WorkItemTtl: nat := WeeksToSeconds(2)

  lemma WorkItemTtlIsTwoWeeks()
    ensures WorkItemTtl == 1209600
  {
  }

  const CreatedOnField: string := "created_on"
  const StartTimeField: string := "start_time"
  const EndTimeField: string := "end_time"
  const ProjectField: string := "project"
  const SourceFileRegexField: string := "source_file_regex"
  const ModuleField: string := "module"
  const ModuleSourceFileRegexField: string := "module_source_file_regex"
  const BuildVariantRegexField: string := "build_variant_regex"

  /**
    The fields the queue's unique index covers: every persisted field except the
    timestamps `created_on`, `start_time` and `end_time`.
   */
  const IdentifyingFields: seq<string> :=
    [ProjectField, SourceFileRegexField, ModuleField, ModuleSourceFileRegexField, BuildVariantRegexField]

  /** Every field a serialised work item may carry. */
  const PersistedFields: set<string> :=
    {CreatedOnField, ProjectField, SourceFileRegexField, ModuleField,
     ModuleSourceFileRegexField, BuildVariantRegexField}

  /** Python truthiness of an optional string: `None` and `""` are both false. */
  predicate Truthy(s: Option<string>) {
    s.Some? && s.value != ""
  }

  /** The document value of an optional string: `None` is stored as null. */
  function NullableStr(s: Option<string>): (v: DocValue)
    ensures v == VNull <==> s == None
    ensures s.Some? ==> v == VStr(s.value)
  {
    match s
    case None => VNull
    case Some(x) => VStr(x)
  }

  /** What `insert` gives its caller: a boolean, or the storage error it lets propagate. */
  datatype InsertResult = Returned(added: bool) | Raised(error: StorageError)

  /** `ProjectTaskMappingWorkItem`; the datatype's constructor is `__init__`. */
  datatype WorkItem = WorkItem(
    startTime: Option<Timestamp>,
    endTime: Option<Timestamp>,
    createdOn: Timestamp,
    project: string,
    sourceFileRegex: string,
    moduleName: Option<string>,
    moduleSourceFileRegex: Option<string>,
    buildVariantRegex: Option<string>)
  {
    /** `new_task_mappings`: a fresh, unprocessed item created at `now`. */
    static function NewTaskMappings(
      now: Timestamp,
      project: string,
      sourceFileRegex: string,
      moduleName: Option<string> := None,
      moduleSourceFileRegex: Option<string> := None,
      buildVariantRegex: Option<string> := None): (item: WorkItem)
      ensures item.startTime == None && item.endTime == None
      ensures item.createdOn == now
      ensures item.project == project && item.sourceFileRegex == sourceFileRegex
      ensures item.moduleName == moduleName && item.moduleSourceFileRegex == moduleSourceFileRegex
      ensures item.buildVariantRegex == buildVariantRegex
    {
      WorkItem(None, None, now, project, sourceFileRegex, moduleName, moduleSourceFileRegex, buildVariantRegex)
    }

    /** The document `insert` submits: only the fields that are set. */
    function ToDocument(): (d: Document)
      ensures CreatedOnField in d && d[CreatedOnField] == VTime(createdOn)
      ensures ProjectField in d && d[ProjectField] == VStr(project)
      ensures SourceFileRegexField in d && d[SourceFileRegexField] == VStr(sourceFileRegex)
      ensures ModuleField in d <==> Truthy(moduleName)
      ensures ModuleSourceFileRegexField in d <==> Truthy(moduleName)
      ensures Truthy(moduleName) ==> d[ModuleField] == VStr(moduleName.value)
      ensures Truthy(moduleName) ==> d[ModuleSourceFileRegexField] == NullableStr(moduleSourceFileRegex)
      ensures BuildVariantRegexField in d <==> Truthy(buildVariantRegex)
      ensures Truthy(buildVariantRegex) ==> d[BuildVariantRegexField] == VStr(buildVariantRegex.value)
      ensures StartTimeField !in d && EndTimeField !in d
      ensures d.Keys <= PersistedFields
    {
      var required := map[CreatedOnField := VTime(createdOn),
                          ProjectField := VStr(project),
                          SourceFileRegexField := VStr(sourceFileRegex)];
      var withModule :=
        if Truthy(moduleName)
        then required[ModuleField := VStr(moduleName.value)]
                     [ModuleSourceFileRegexField := NullableStr(moduleSourceFileRegex)]
        else required;
      if Truthy(buildVariantRegex)
      then withModule[BuildVariantRegexField := VStr(buildVariantRegex.value)]
      else withModule
    }

    /** A document with this item's identifying fields is already stored. */
    predicate QueuedIn(docs: seq<Document>, fields: seq<string>) {
      HasKey(docs, fields, IndexKey(ToDocument(), fields))
    }

    /**
      `insert`: build the document field by field, submit it, and turn a duplicate-key
      error into `false`. Any other storage error propagates, and the document may or may not
      have been stored when it was raised.
     */
    method Insert(collection: Collection, failure: Option<Failure>) returns (r: InsertResult)
      requires collection.Valid()
      modifies collection
      ensures collection.Valid()
      ensures failure.Some? ==> r == Raised(failure.value.error)
      ensures failure.Some? ==>
                collection.documents == old(collection.documents)
                || (!QueuedIn(old(collection.documents), collection.uniqueFields)
                    && collection.documents == old(collection.documents) + [ToDocument()])
      ensures failure.Some? && !failure.value.applied ==>
                collection.documents == old(collection.documents)
      ensures failure.None? && !QueuedIn(old(collection.documents), collection.uniqueFields) ==>
                r == Returned(collection.acknowledgesWrites)
                && collection.documents == old(collection.documents) + [ToDocument()]
      ensures failure.None? && QueuedIn(old(collection.documents), collection.uniqueFields) ==>
                r == Returned(false) && collection.documents == old(collection.documents)
    {
      var toInsert: Document := map[CreatedOnField := VTime(createdOn),
                                    ProjectField := VStr(project),
                                    SourceFileRegexField := VStr(sourceFileRegex)];
      if Truthy(moduleName) {
        toInsert := toInsert[ModuleField := VStr(moduleName.value)];
        toInsert := toInsert[ModuleSourceFileRegexField := NullableStr(moduleSourceFileRegex)];
      }
      if Truthy(buildVariantRegex) {
        toInsert := toInsert[BuildVariantRegexField := VStr(buildVariantRegex.value)];
      }
      assert toInsert == ToDocument();
      var outcome := collection.InsertOne(toInsert, failure);
      match outcome
      case InsertOneResult(acknowledged) => r := Returned(acknowledged);
      case DuplicateKeyError => r := Returned(false);
      case OtherError(e) => r := Raised(e);
    }
  }

  /**
    Two items are the same request for queueing purposes: the same project and source
    pattern, the same module (or both without one, in which case the module pattern does not
    matter) and the same build-variant pattern (or both without one). Python's falsy values
    count as absent.
   */
  predicate SameRequest(a: WorkItem, b: WorkItem) {
    && a.project == b.project
    && a.sourceFileRegex == b.sourceFileRegex
    && Truthy(a.moduleName) == Truthy(b.moduleName)
    && (Truthy(a.moduleName) ==> a.moduleName == b.moduleName && a.moduleSourceFileRegex == b.moduleSourceFileRegex)
    && Truthy(a.buildVariantRegex) == Truthy(b.buildVariantRegex)
    && (Truthy(a.buildVariantRegex) ==> a.buildVariantRegex == b.buildVariantRegex)
  }

  /** The unique index treats two items' documents as duplicates exactly when they are the same request. */
  lemma SameIndexKeyIffSameRequest(a: WorkItem, b: WorkItem)
    ensures IndexKey(a.ToDocument(), IdentifyingFields) == IndexKey(b.ToDocument(), IdentifyingFields)
            <==> SameRequest(a, b)
  {
    var da, db := a.ToDocument(), b.ToDocument();
    IndexKeyEqualIff(da, db, IdentifyingFields);
    assert IdentifyingFields[0] == ProjectField && IdentifyingFields[1] == SourceFileRegexField;
    assert IdentifyingFields[2] == ModuleField && IdentifyingFields[3] == ModuleSourceFileRegexField;
    assert IdentifyingFields[4] == BuildVariantRegexField;
    var ma := if Truthy(a.moduleName) then VStr(a.moduleName.value) else VNull;
    var mb := if Truthy(b.moduleName) then VStr(b.moduleName.value) else VNull;
    assert Lookup(da, ModuleField) == ma && Lookup(db, ModuleField) == mb;
    var va := if Truthy(a.buildVariantRegex) then VStr(a.buildVariantRegex.value) else VNull;
    var vb := if Truthy(b.buildVariantRegex) then VStr(b.buildVariantRegex.value) else VNull;
    assert Lookup(da, BuildVariantRegexField) == va && Lookup(db, BuildVariantRegexField) == vb;
    var sa := if Truthy(a.moduleName) then NullableStr(a.moduleSourceFileRegex) else VNull;
    var sb := if Truthy(b.moduleName) then NullableStr(b.moduleSourceFileRegex) else VNull;
    assert Lookup(da, ModuleSourceFileRegexField) == sa && Lookup(db, ModuleSourceFileRegexField) == sb;
    if SameRequest(a, b) {
      assert ma == mb && va == vb && sa == sb;
    }
  }

  /** Items that differ only in their timestamps are duplicates. */
  lemma TimestampsDoNotIdentify(a: WorkItem, createdOn: Timestamp, startTime: Option<Timestamp>, endTime: Option<Timestamp>)
    ensures IndexKey(a.(createdOn := createdOn, startTime := startTime, endTime := endTime).ToDocument(), IdentifyingFields)
            == IndexKey(a.ToDocument(), IdentifyingFields)
  {
  }

  /** An item with a module is never a duplicate of one without. */
  lemma ModulePresenceDistinguishes(a: WorkItem, b: WorkItem)
    requires Truthy(a.moduleName) != Truthy(b.moduleName)
    ensures IndexKey(a.ToDocument(), IdentifyingFields) != IndexKey(b.ToDocument(), IdentifyingFields)
  {
    SameIndexKeyIffSameRequest(a, b);
  }

  /**
    Inserting the same item twice into a store whose unique index covers the identifying
    fields leaves the store as one insert does, holding exactly one document for the item.
   */
  lemma InsertTwiceStoresOne(docs: seq<Document>, item: WorkItem)
    requires Unique(docs, IdentifyingFields)
    ensures var once := Accept(docs, IdentifyingFields, item.ToDocument());
            && Accept(once, IdentifyingFields, item.ToDocument()) == once
            && CountKey(once, IdentifyingFields, IndexKey(item.ToDocument(), IdentifyingFields)) == 1
  {
    AcceptIdempotent(docs, IdentifyingFields, item.ToDocument());
    ExactlyOneAfterAccept(docs, IdentifyingFields, item.ToDocument());
  }

  /**
    Enqueue a new item on an empty queue, then enqueue the same item again: the first
    insert adds it, the second is suppressed, and one document is stored.
   */
  method EnqueueSameItemTwice(now: Timestamp, project: string, sourceFileRegex: string)
    returns (first: InsertResult, second: InsertResult, stored: nat)
    ensures first == Returned(true) && second == Returned(false) && stored == 1
  {
    var queue := new Collection(IdentifyingFields, true);
    var item := WorkItem.NewTaskMappings(now, project, sourceFileRegex);
    first := item.Insert(queue, None);
    assert queue.documents == [item.ToDocument()];
    assert queue.documents[0] == item.ToDocument();
    second := item.Insert(queue, None);
    stored := |queue.documents|;
  }

  /**
    Enqueue an item without a module and the same request with a module: both are
    added, since the module's presence tells them apart.
   */
  method EnqueueWithAndWithoutModule(now: Timestamp, project: string, sourceFileRegex: string,
                                     moduleName: string, moduleSourceFileRegex: string)
    returns (first: InsertResult, second: InsertResult, stored: nat)
    requires moduleName != ""
    ensures first == Returned(true) && second == Returned(true) && stored == 2
  {
    var queue := new Collection(IdentifyingFields, true);
    var plain := WorkItem.NewTaskMappings(now, project, sourceFileRegex);
    var withModule := WorkItem.NewTaskMappings(now, project, sourceFileRegex, Some(moduleName), Some(moduleSourceFileRegex));
    first := plain.Insert(queue, None);
    assert queue.documents == [plain.ToDocument()];
    ModulePresenceDistinguishes(withModule, plain);
    second := withModule.Insert(queue, None);
    stored := |queue.documents|;
  }
}
