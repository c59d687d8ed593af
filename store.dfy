/**
  An abstract document store: the part of a Mongo collection the work-item queue relies on.
  A collection holds documents (maps from field name to value) and enforces one unique
  index over a fixed list of fields. As in Mongo, a field a document does not carry is
  indexed as null, so two documents that both omit a field agree on it.
 */
module Store {
  import opened Wrappers

  type Timestamp = int

  /** A value stored under a document key. `VNull` is a key present with value `None`. */
  datatype DocValue = VTime(time: Timestamp) | VStr(str: string) | VNull

  type Document = map<string, DocValue>

  /** A storage failure other than a duplicate key (connection lost, server error, ...). */
  datatype StorageError = StorageError(message: string)

  /**
    How a call to the store fails: the error raised to the caller, and whether the write
    had already taken effect when it was raised (as after a write-concern error, or a
    network error once the command was sent).
   */
  datatype Failure = Failure(error: StorageError, applied: bool)

  /** What `insert_one` reports: a result carrying `acknowledged`, or one of two exceptions. */
  datatype InsertOneOutcome =
    | InsertOneResult(acknowledged: bool)
    | DuplicateKeyError
    | OtherError(error: StorageError)

  /** The value the index sees for one field: the stored value, or null when the key is absent. */
  function Lookup(d: Document, field: string): (v: DocValue)
    ensures field !in d ==> v == VNull
    ensures field in d ==> v == d[field]
  {
    if field in d then d[field] else VNull
  }

  /** The entry of a document in a compound index over `fields`. */
  function IndexKey(d: Document, fields: seq<string>): (k: seq<DocValue>)
    ensures |k| == |fields|
    ensures forall i :: 0 <= i < |fields| ==> k[i] == Lookup(d, fields[i])
  {
    if fields == [] then [] else [Lookup(d, fields[0])] + IndexKey(d, fields[1..])
  }

  /** Two documents collide in the index exactly when they agree on every indexed field. */
  lemma IndexKeyEqualIff(d: Document, e: Document, fields: seq<string>)
    ensures IndexKey(d, fields) == IndexKey(e, fields)
            <==> forall i :: 0 <= i < |fields| ==> Lookup(d, fields[i]) == Lookup(e, fields[i])
  {
  }

  /** No two stored documents share an index entry: the unique index's guarantee. */
  predicate Unique(docs: seq<Document>, fields: seq<string>) {
    forall i, j :: 0 <= i < j < |docs| ==> IndexKey(docs[i], fields) != IndexKey(docs[j], fields)
  }

  /** Some stored document already has index entry `k`. */
  predicate HasKey(docs: seq<Document>, fields: seq<string>, k: seq<DocValue>) {
    exists i :: 0 <= i < |docs| && IndexKey(docs[i], fields) == k
  }

  /** The stored documents after the store is asked to add `doc`: a duplicate is refused. */
  function Accept(docs: seq<Document>, fields: seq<string>, doc: Document): (r: seq<Document>)
  {
    if HasKey(docs, fields, IndexKey(doc, fields)) then docs else docs + [doc]
  }

  /** The number of stored documents whose index entry is `k`. */
  function CountKey(docs: seq<Document>, fields: seq<string>, k: seq<DocValue>): nat
  {
    if docs == [] then 0
    else CountKey(docs[..|docs| - 1], fields, k)
         + (if IndexKey(docs[|docs| - 1], fields) == k then 1 else 0)
  }

  /** Accepting a document keeps the index unique, and afterwards its entry is present. */
  lemma AcceptKeepsUnique(docs: seq<Document>, fields: seq<string>, doc: Document)
    requires Unique(docs, fields)
    ensures Unique(Accept(docs, fields, doc), fields)
    ensures HasKey(Accept(docs, fields, doc), fields, IndexKey(doc, fields))
  {
    var r := Accept(docs, fields, doc);
    if !HasKey(docs, fields, IndexKey(doc, fields)) {
      assert r[|docs|] == doc;
    }
  }

  /** Asking twice to add the same document leaves the store as asking once does. */
  lemma AcceptIdempotent(docs: seq<Document>, fields: seq<string>, doc: Document)
    ensures Accept(Accept(docs, fields, doc), fields, doc) == Accept(docs, fields, doc)
  {
    var once := Accept(docs, fields, doc);
    if !HasKey(docs, fields, IndexKey(doc, fields)) {
      assert once[|docs|] == doc;
    }
  }

  lemma {:induction false} CountKeyAbsent(docs: seq<Document>, fields: seq<string>, k: seq<DocValue>)
    requires !HasKey(docs, fields, k)
    ensures CountKey(docs, fields, k) == 0
  {
    if docs != [] {
      var prefix := docs[..|docs| - 1];
      assert forall i :: 0 <= i < |prefix| ==> prefix[i] == docs[i];
      CountKeyAbsent(prefix, fields, k);
    }
  }

  lemma {:induction false} CountKeyUnique(docs: seq<Document>, fields: seq<string>, k: seq<DocValue>)
    requires Unique(docs, fields) && HasKey(docs, fields, k)
    ensures CountKey(docs, fields, k) == 1
  {
    var n := |docs|;
    var prefix := docs[..n - 1];
    var last := IndexKey(docs[n - 1], fields);
    assert forall i :: 0 <= i < |prefix| ==> prefix[i] == docs[i];
    assert Unique(prefix, fields);
    if last == k {
      assert !HasKey(prefix, fields, k);
      CountKeyAbsent(prefix, fields, k);
    } else {
      var i :| 0 <= i < n && IndexKey(docs[i], fields) == k;
      assert i < n - 1;
      CountKeyUnique(prefix, fields, k);
    }
  }

  /** After a document is accepted into a unique store, exactly one stored document has its entry. */
  lemma ExactlyOneAfterAccept(docs: seq<Document>, fields: seq<string>, doc: Document)
    requires Unique(docs, fields)
    ensures CountKey(Accept(docs, fields, doc), fields, IndexKey(doc, fields)) == 1
  {
    AcceptKeepsUnique(docs, fields, doc);
    CountKeyUnique(Accept(docs, fields, doc), fields, IndexKey(doc, fields));
  }

  /**
    A Mongo collection with one unique index over `uniqueFields`. `acknowledgesWrites` is its
    write concern: with an unacknowledged write concern the server still applies the index,
    but `insert_one` reports `acknowledged == False` and raises no duplicate-key error.
   */
  class Collection {
    const uniqueFields: seq<string>
    const acknowledgesWrites: bool
    var documents: seq<Document>

    ghost predicate Valid()
      reads this
    {
      Unique(documents, uniqueFields)
    }

    constructor (uniqueFields: seq<string>, acknowledgesWrites: bool)
      ensures Valid()
      ensures this.uniqueFields == uniqueFields && this.acknowledgesWrites == acknowledgesWrites
      ensures documents == []
    {
      this.uniqueFields := uniqueFields;
      this.acknowledgesWrites := acknowledgesWrites;
      documents := [];
    }

    /**
      `insert_one(doc)`. `failure` is the environment's choice of a storage failure for this
      call; when it is `None` the store stores `doc` unless the unique index refuses it.
      A failure raises its error; the write may or may not have taken effect before it.
     */
    method InsertOne(doc: Document, failure: Option<Failure>) returns (outcome: InsertOneOutcome)
      requires Valid()
      modifies this
      ensures Valid()
      ensures failure.Some? ==> outcome == OtherError(failure.value.error)
      ensures failure.Some? ==>
                documents == if failure.value.applied then Accept(old(documents), uniqueFields, doc)
                             else old(documents)
      ensures failure.None? ==> documents == Accept(old(documents), uniqueFields, doc)
      ensures failure.None? && HasKey(old(documents), uniqueFields, IndexKey(doc, uniqueFields)) ==>
                outcome == (if acknowledgesWrites then DuplicateKeyError else InsertOneResult(false))
      ensures failure.None? && !HasKey(old(documents), uniqueFields, IndexKey(doc, uniqueFields)) ==>
                outcome == InsertOneResult(acknowledgesWrites)
    {
      AcceptKeepsUnique(documents, uniqueFields, doc);
      if failure.Some? {
        if failure.value.applied {
          documents := Accept(documents, uniqueFields, doc);
        }
        return OtherError(failure.value.error);
      }
      var duplicate := exists i :: 0 <= i < |documents| && IndexKey(documents[i], uniqueFields) == IndexKey(doc, uniqueFields);
      if duplicate {
        outcome := if acknowledgesWrites then DuplicateKeyError else InsertOneResult(false);
      } else {
        documents := documents + [doc];
        outcome := InsertOneResult(acknowledgesWrites);
      }
    }
  }
}
