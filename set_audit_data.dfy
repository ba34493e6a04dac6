/**
 * The audit stamps a document receives before it is saved.
 *
 * `setAuditData(usernameField, noOp)` returns a hook; each call of the hook
 * resolves the operation (default: update), works out who is acting, makes
 * sure the document has an `audit` group and writes into it the created,
 * updated and published stamps the operation calls for. The hook is the
 * class `AuditDataHook`, its arguments the class `HookArgs`, and the clock is
 * the parameter `now`.
 */
module SetAuditData {
  import opened JsValue
  import opened Constants

  datatype Operation = Create | Update

  /** What the hook does to the document: returns it, or fails on an audit group that cannot hold properties. */
  datatype HookOutcome = Returned(data: Entries) | TypeError

  /** `args.operation ??= 'update'`. */
  function OperationOrUpdate(op: Option<Operation>): (r: Operation)
    ensures op.None? ==> r == Update
    ensures op.Some? ==> r == op.value
  {
    match op
    case Some(o) => o
    case None => Update
  }

  /** `args.req?.user?.[usernameField] || DEFAULT_USERNAME`, as a template literal prints it. */
  function UserName(user: Value, usernameField: string): (r: string)
    ensures !Truthy(Get(user, usernameField)) ==> r == DefaultUsername
    ensures Truthy(Get(user, usernameField)) ==> r == ToText(Get(user, usernameField))
  {
    var v := Get(user, usernameField);
    if Truthy(v) then ToText(v) else DefaultUsername
  }

  /** `args.req?.user?.id?.toString?.() || DEFAULT_ID`. */
  function UserId(user: Value): (r: string)
    ensures r != ""
    ensures Get(user, "id").Undefined? || Get(user, "id").Null? ==> r == DefaultId
    ensures r != DefaultId ==> r == ToText(Get(user, "id"))
    ensures !(Get(user, "id").Undefined? || Get(user, "id").Null?) && ToText(Get(user, "id")) != "" ==>
      r == ToText(Get(user, "id"))
    ensures !(Get(user, "id").Undefined? || Get(user, "id").Null?) && ToText(Get(user, "id")) == "" ==>
      r == DefaultId
  {
    var id := Get(user, "id");
    if id.Undefined? || id.Null? then DefaultId
    else
      var s := ToText(id);
      if s == "" then DefaultId else s
  }

  /** `${userName} (${userId})`. */
  function ActorText(user: Value, usernameField: string): string
  {
    UserName(user, usernameField) + " (" + UserId(user) + ")"
  }

  /** A signed-in user turns a created document that is published, or a draft that is being published, into a publication. */
  predicate Publishes(op: Operation, user: Value, status: Value, originalStatus: Value)
    ensures Publishes(op, user, status, originalStatus) ==> Truthy(user) && status == Str("published")
    ensures Publishes(op, user, status, originalStatus) && op == Update ==> originalStatus == Str("draft")
  {
    Truthy(user) &&
    ((op == Create && status == Str("published")) ||
     (op == Update && originalStatus == Str("draft") && status == Str("published")))
  }

  /** The stamp properties the hook writes into the audit group, in the order it writes them. */
  function StampWrites(op: Operation, user: Value, status: Value, originalStatus: Value, actor: string, now: string): Entries
  {
    (if op == Update then [(UpdatedByFieldName, Str(actor)), (UpdatedAtFieldName, Str(now))]
     else [(CreatedByFieldName, Str(actor)), (CreatedAtFieldName, Str(now))]) +
    (if Publishes(op, user, status, originalStatus) then [(PublishedAtFieldName, Str(now)), (PublishedByFieldName, Str(actor))]
     else [])
  }

  /** Assign the properties of `writes` to `es`, one after the other. */
  function Overwrite(es: Entries, writes: Entries): Entries
    decreases |writes|
  {
    if writes == [] then es else Overwrite(SetEntry(es, writes[0].0, writes[0].1), writes[1..])
  }

  /** The stamp writes of one call on `data`. */
  function WritesOf(data: Entries, op: Operation, user: Value, originalDoc: Value,
                    usernameField: string, now: string): Entries
  {
    StampWrites(op, user, Lookup(data, "_status"), Get(originalDoc, "_status"), ActorText(user, usernameField), now)
  }

  /** `Publishes` for the document's and the original document's `_status`. */
  predicate PublishesNow(data: Entries, op: Operation, user: Value, originalDoc: Value)
  {
    Publishes(op, user, Lookup(data, "_status"), Get(originalDoc, "_status"))
  }

  /** The hook's effect on `data`, for the resolved operation. */
  function Stamped(data: Entries, op: Operation, user: Value, originalDoc: Value,
                   usernameField: string, now: string): HookOutcome
  {
    var writes := WritesOf(data, op, user, originalDoc, usernameField, now);
    match Lookup(data, AuditGroupName)
    case Undefined => Returned(SetEntry(data, AuditGroupName, Obj(Overwrite([], writes))))
    case Null => Returned(SetEntry(data, AuditGroupName, Obj(Overwrite([], writes))))
    case Obj(es) => Returned(SetEntry(data, AuditGroupName, Obj(Overwrite(es, writes))))
    case Arr(_) => Returned(data)
    case _ => TypeError
  }

  /** The `args` object the hook receives. */
  class HookArgs {
    var data: Entries
    var operation: Option<Operation>
    const originalDoc: Value
    const user: Value

    constructor (data: Entries, operation: Option<Operation>, originalDoc: Value, user: Value)
      ensures this.data == data && this.operation == operation
      ensures this.originalDoc == originalDoc && this.user == user
    {
      this.data := data;
      this.operation := operation;
      this.originalDoc := originalDoc;
      this.user := user;
    }
  }

  /** The closure `setAuditData(usernameField, noOp)` returns. */
  class AuditDataHook {
    const usernameField: string
    const noOp: bool

    constructor (usernameField: string, noOp: bool)
      ensures this.usernameField == usernameField && this.noOp == noOp
    {
      this.usernameField := usernameField;
      this.noOp := noOp;
    }

    method Apply(args: HookArgs, now: string) returns (r: HookOutcome)
      modifies args
      ensures r == Stamped(old(args.data), OperationOrUpdate(old(args.operation)), args.user,
                           args.originalDoc, usernameField, now)
      ensures args.data == if r.Returned? then r.data else old(args.data)
      ensures args.operation == if noOp && r.Returned? then None else Some(OperationOrUpdate(old(args.operation)))
    {
      if args.operation.None? {
        args.operation := Some(Update);
      }
      var operation := args.operation.value;
      var userName := UserName(args.user, usernameField);
      var userId := UserId(args.user);
      var actor := userName + " (" + userId + ")";
      assert actor == ActorText(args.user, usernameField);

      ghost var data0 := args.data;
      ghost var writes := StampWrites(operation, args.user, Lookup(data0, "_status"), Get(args.originalDoc, "_status"), actor, now);
      ghost var expected := Stamped(data0, operation, args.user, args.originalDoc, usernameField, now);
      var audit := Lookup(args.data, AuditGroupName);
      if audit.Undefined? || audit.Null? {
        audit := Obj([]);
        args.data := SetEntry(args.data, AuditGroupName, audit);
      }
      if !audit.Obj? && !audit.Arr? {
        // assigning a property to a primitive throws in strict mode
        assert expected == TypeError;
        return TypeError;
      }
      var fields := if audit.Obj? then audit.entries else [];
      var status := Lookup(args.data, "_status");
      assert status == Lookup(data0, "_status");
      fields := WriteStamps(fields, operation, args.user, status, Get(args.originalDoc, "_status"), actor, now);
      if audit.Obj? {
        args.data := SetEntry(args.data, AuditGroupName, Obj(fields));
        if Lookup(data0, AuditGroupName).Undefined? || Lookup(data0, AuditGroupName).Null? {
          SetEntryTwice(data0, AuditGroupName, Obj([]), Obj(fields));
          assert expected == Returned(SetEntry(data0, AuditGroupName, Obj(Overwrite([], writes))));
        } else {
          assert expected == Returned(SetEntry(data0, AuditGroupName, Obj(Overwrite(audit.entries, writes))));
        }
      } else {
        assert expected == Returned(data0);
      }
      if noOp {
        args.operation := None;
      }
      r := Returned(args.data);
    }
  }

  /** The assignments into the audit group, in the order the hook makes them. */
  method WriteStamps(audit: Entries, operation: Operation, user: Value, status: Value, originalStatus: Value,
                     actor: string, now: string) returns (fields: Entries)
    ensures fields == Overwrite(audit, StampWrites(operation, user, status, originalStatus, actor, now))
  {
    ghost var writes := StampWrites(operation, user, status, originalStatus, actor, now);
    fields := audit;
    if operation == Update {
      fields := SetEntry(fields, UpdatedByFieldName, Str(actor));
      fields := SetEntry(fields, UpdatedAtFieldName, Str(now));
    }
    if operation == Create {
      fields := SetEntry(fields, CreatedByFieldName, Str(actor));
      fields := SetEntry(fields, CreatedAtFieldName, Str(now));
    }
    ghost var fields1 := fields;
    OverwritePair(audit, writes[..2]);
    if Truthy(user) {
      if operation == Create && status == Str("published") {
        fields := SetEntry(fields, PublishedAtFieldName, Str(now));
        fields := SetEntry(fields, PublishedByFieldName, Str(actor));
      }
      if operation == Update && originalStatus == Str("draft") && status == Str("published") {
        fields := SetEntry(fields, PublishedAtFieldName, Str(now));
        fields := SetEntry(fields, PublishedByFieldName, Str(actor));
      }
    }
    if Publishes(operation, user, status, originalStatus) {
      OverwritePair(fields1, writes[2..]);
    } else {
      assert writes[2..] == [];
    }
    OverwriteSplit(audit, writes, 2);
  }

  lemma OverwritePair(es: Entries, writes: Entries)
    requires |writes| == 2
    ensures Overwrite(es, writes) == SetEntry(SetEntry(es, writes[0].0, writes[0].1), writes[1].0, writes[1].1)
  {
    var once := SetEntry(es, writes[0].0, writes[0].1);
    assert writes[1..][1..] == [];
    assert Overwrite(once, writes[1..]) == Overwrite(SetEntry(once, writes[1].0, writes[1].1), []);
  }

  lemma {:induction false} OverwriteSplit(es: Entries, writes: Entries, n: nat)
    requires n <= |writes|
    ensures Overwrite(es, writes) == Overwrite(Overwrite(es, writes[..n]), writes[n..])
    decreases n
  {
    if n > 0 {
      assert writes[..n][1..] == writes[1..][..n - 1];
      assert writes[n..] == writes[1..][n - 1..];
      OverwriteSplit(SetEntry(es, writes[0].0, writes[0].1), writes[1..], n - 1);
    }
  }

  // ---------------------------------------------------------------------------
  // What the stamping rule means
  // ---------------------------------------------------------------------------

  /** The six stamp property names. */
  const StampNames: seq<string> := [CreatedByFieldName, CreatedAtFieldName, UpdatedByFieldName,
                                    UpdatedAtFieldName, PublishedByFieldName, PublishedAtFieldName]

  /** The audit group before the hook runs, as the entries the hook starts from. */
  function AuditBefore(data: Entries): Entries
  {
    match Lookup(data, AuditGroupName)
    case Obj(es) => es
    case _ => []
  }

  /** After assigning distinct properties, each holds its assigned value and every other property is as before. */
  lemma {:induction false} OverwriteAt(es: Entries, writes: Entries, f: string)
    requires NoDup(KeysOf(writes))
    ensures Lookup(Overwrite(es, writes), f) == if f in KeysOf(writes) then Lookup(writes, f) else Lookup(es, f)
    ensures f in KeysOf(Overwrite(es, writes)) <==> f in KeysOf(es) || f in KeysOf(writes)
    decreases |writes|
  {
    if writes != [] {
      var rest := writes[1..];
      KeysOfTail(writes);
      var once := SetEntry(es, writes[0].0, writes[0].1);
      OverwriteAt(once, rest, f);
      if f != writes[0].0 {
        LookupTail(writes, f);
      }
    }
  }

  /** The names of a non-empty list of writes: the first, then the rest's; distinct names stay distinct in the rest. */
  lemma KeysOfTail(w: Entries)
    requires w != []
    ensures KeysOf(w) == [w[0].0] + KeysOf(w[1..])
    ensures NoDup(KeysOf(w)) ==> NoDup(KeysOf(w[1..])) && w[0].0 !in KeysOf(w[1..])
  {
    var rest := KeysOf(w[1..]);
    assert KeysOf(w) == [w[0].0] + rest;
    if NoDup(KeysOf(w)) {
      forall i, j | 0 <= i < j < |rest| ensures rest[i] != rest[j] {
        assert rest[i] == KeysOf(w)[i + 1] && rest[j] == KeysOf(w)[j + 1];
      }
      forall i | 0 <= i < |rest| ensures rest[i] != w[0].0 {
        assert rest[i] == KeysOf(w)[i + 1] && KeysOf(w)[0] == w[0].0;
      }
    }
  }

  /** Looking up a name other than the first entry's skips that entry. */
  lemma LookupTail(w: Entries, f: string)
    requires w != [] && f != w[0].0
    ensures Lookup(w, f) == Lookup(w[1..], f)
  {
  }

  /** The stamps written for one call: their names are distinct, update and create stamps never together. */
  lemma StampWritesNames(op: Operation, user: Value, status: Value, originalStatus: Value, actor: string, now: string)
    ensures var w := StampWrites(op, user, status, originalStatus, actor, now);
      NoDup(KeysOf(w)) &&
      KeysOf(w) ==
        (if op == Update then [UpdatedByFieldName, UpdatedAtFieldName] else [CreatedByFieldName, CreatedAtFieldName]) +
        (if Publishes(op, user, status, originalStatus) then [PublishedAtFieldName, PublishedByFieldName] else [])
  {
    var w := StampWrites(op, user, status, originalStatus, actor, now);
    assert KeysOf(w) ==
      (if op == Update then [UpdatedByFieldName, UpdatedAtFieldName] else [CreatedByFieldName, CreatedAtFieldName]) +
      (if Publishes(op, user, status, originalStatus) then [PublishedAtFieldName, PublishedByFieldName] else []);
  }

  /**
   * The hook fails exactly when the document already holds an audit group
   * that is a boolean, a number or a string; otherwise it returns the
   * document, whose properties other than the audit group are untouched.
   */
  lemma StampedTouchesOnlyAudit(data: Entries, op: Operation, user: Value, originalDoc: Value,
                                usernameField: string, now: string)
    ensures var r := Stamped(data, op, user, originalDoc, usernameField, now);
      var audit := Lookup(data, AuditGroupName);
      (r.TypeError? <==> audit.Bool? || audit.Num? || audit.Str?) &&
      (r.Returned? ==>
        (forall k :: k != AuditGroupName ==> Lookup(r.data, k) == Lookup(data, k)) &&
        (KeysOf(r.data) == if AuditGroupName in KeysOf(data) then KeysOf(data) else KeysOf(data) + [AuditGroupName]))
  {
    if Lookup(data, AuditGroupName) == Undefined || Lookup(data, AuditGroupName) == Null {
    } else {
      assert Find(data, AuditGroupName) < |data|;
      FindIsMember(data, AuditGroupName);
    }
  }

  /** The audit group after the call: the prior group (or `{}`) with the stamps assigned into it. */
  function AuditAfter(data: Entries, op: Operation, user: Value, originalDoc: Value,
                      usernameField: string, now: string): Entries
  {
    Overwrite(AuditBefore(data), WritesOf(data, op, user, originalDoc, usernameField, now))
  }

  /** When the document has no audit group, or an object there, the call succeeds and stores `AuditAfter`. */
  lemma StampedStoresAudit(data: Entries, op: Operation, user: Value, originalDoc: Value,
                           usernameField: string, now: string)
    requires Lookup(data, AuditGroupName).Undefined? || Lookup(data, AuditGroupName).Null? ||
             Lookup(data, AuditGroupName).Obj?
    ensures Stamped(data, op, user, originalDoc, usernameField, now) ==
      Returned(SetEntry(data, AuditGroupName, Obj(AuditAfter(data, op, user, originalDoc, usernameField, now))))
    ensures Lookup(Stamped(data, op, user, originalDoc, usernameField, now).data, AuditGroupName) ==
      Obj(AuditAfter(data, op, user, originalDoc, usernameField, now))
  {
  }

  lemma {:induction false} AuditAfterAt(data: Entries, op: Operation, user: Value, originalDoc: Value,
                                        usernameField: string, now: string, f: string)
    ensures var w := WritesOf(data, op, user, originalDoc, usernameField, now);
      NoDup(KeysOf(w)) &&
      Lookup(AuditAfter(data, op, user, originalDoc, usernameField, now), f) ==
        if f in KeysOf(w) then Lookup(w, f) else Lookup(AuditBefore(data), f)
  {
    var status, originalStatus := Lookup(data, "_status"), Get(originalDoc, "_status");
    StampWritesNames(op, user, status, originalStatus, ActorText(user, usernameField), now);
    OverwriteAt(AuditBefore(data), WritesOf(data, op, user, originalDoc, usernameField, now), f);
  }

  /** An update sets `updatedBy` to the actor and `updatedAt` to the clock; a create leaves them as they were. */
  lemma UpdateStamps(data: Entries, op: Operation, user: Value, originalDoc: Value, usernameField: string, now: string)
    ensures var audit := AuditAfter(data, op, user, originalDoc, usernameField, now);
      Lookup(audit, UpdatedByFieldName) ==
        (if op == Update then Str(ActorText(user, usernameField)) else Lookup(AuditBefore(data), UpdatedByFieldName)) &&
      Lookup(audit, UpdatedAtFieldName) ==
        (if op == Update then Str(now) else Lookup(AuditBefore(data), UpdatedAtFieldName))
  {
    var status, originalStatus := Lookup(data, "_status"), Get(originalDoc, "_status");
    StampWritesNames(op, user, status, originalStatus, ActorText(user, usernameField), now);
    StampWriteValues(op, user, status, originalStatus, ActorText(user, usernameField), now);
    var w := WritesOf(data, op, user, originalDoc, usernameField, now);
    if op == Update {
      assert UpdatedByFieldName in KeysOf(w) && UpdatedAtFieldName in KeysOf(w);
    } else {
      assert UpdatedByFieldName !in KeysOf(w) && UpdatedAtFieldName !in KeysOf(w);
    }
    AuditAfterAt(data, op, user, originalDoc, usernameField, now, UpdatedByFieldName);
    AuditAfterAt(data, op, user, originalDoc, usernameField, now, UpdatedAtFieldName);
  }

  /** A create sets `createdBy` to the actor and `createdAt` to the clock; an update leaves them as they were. */
  lemma CreateStamps(data: Entries, op: Operation, user: Value, originalDoc: Value, usernameField: string, now: string)
    ensures var audit := AuditAfter(data, op, user, originalDoc, usernameField, now);
      Lookup(audit, CreatedByFieldName) ==
        (if op == Create then Str(ActorText(user, usernameField)) else Lookup(AuditBefore(data), CreatedByFieldName)) &&
      Lookup(audit, CreatedAtFieldName) ==
        (if op == Create then Str(now) else Lookup(AuditBefore(data), CreatedAtFieldName))
  {
    var status, originalStatus := Lookup(data, "_status"), Get(originalDoc, "_status");
    StampWritesNames(op, user, status, originalStatus, ActorText(user, usernameField), now);
    StampWriteValues(op, user, status, originalStatus, ActorText(user, usernameField), now);
    var w := WritesOf(data, op, user, originalDoc, usernameField, now);
    if op == Create {
      assert CreatedByFieldName in KeysOf(w) && CreatedAtFieldName in KeysOf(w);
    } else {
      assert CreatedByFieldName !in KeysOf(w) && CreatedAtFieldName !in KeysOf(w);
    }
    AuditAfterAt(data, op, user, originalDoc, usernameField, now, CreatedByFieldName);
    AuditAfterAt(data, op, user, originalDoc, usernameField, now, CreatedAtFieldName);
  }

  /** The published stamps are set exactly when `Publishes` holds, and are otherwise left as they were. */
  lemma PublishedStamps(data: Entries, op: Operation, user: Value, originalDoc: Value, usernameField: string, now: string)
    ensures var audit := AuditAfter(data, op, user, originalDoc, usernameField, now);
      var publishes := PublishesNow(data, op, user, originalDoc);
      Lookup(audit, PublishedByFieldName) ==
        (if publishes then Str(ActorText(user, usernameField)) else Lookup(AuditBefore(data), PublishedByFieldName)) &&
      Lookup(audit, PublishedAtFieldName) ==
        (if publishes then Str(now) else Lookup(AuditBefore(data), PublishedAtFieldName))
  {
    var status, originalStatus := Lookup(data, "_status"), Get(originalDoc, "_status");
    StampWritesNames(op, user, status, originalStatus, ActorText(user, usernameField), now);
    StampWriteValues(op, user, status, originalStatus, ActorText(user, usernameField), now);
    var w := WritesOf(data, op, user, originalDoc, usernameField, now);
    if PublishesNow(data, op, user, originalDoc) {
      assert PublishedByFieldName in KeysOf(w) && PublishedAtFieldName in KeysOf(w);
    } else {
      assert PublishedByFieldName !in KeysOf(w) && PublishedAtFieldName !in KeysOf(w);
    }
    AuditAfterAt(data, op, user, originalDoc, usernameField, now, PublishedByFieldName);
    AuditAfterAt(data, op, user, originalDoc, usernameField, now, PublishedAtFieldName);
  }

  /** Every property of an existing audit group other than the six stamps is kept. */
  lemma OtherAuditPropertiesKept(data: Entries, op: Operation, user: Value, originalDoc: Value,
                                 usernameField: string, now: string, f: string)
    requires f !in StampNames
    ensures Lookup(AuditAfter(data, op, user, originalDoc, usernameField, now), f) == Lookup(AuditBefore(data), f)
    ensures f in KeysOf(AuditBefore(data)) ==> f in KeysOf(AuditAfter(data, op, user, originalDoc, usernameField, now))
  {
    var status, originalStatus := Lookup(data, "_status"), Get(originalDoc, "_status");
    StampWritesNames(op, user, status, originalStatus, ActorText(user, usernameField), now);
    AuditAfterAt(data, op, user, originalDoc, usernameField, now, f);
    OverwriteAt(AuditBefore(data), WritesOf(data, op, user, originalDoc, usernameField, now), f);
  }

  /** Two stamps per call, four when publishing; each `By` stamp holds the actor and each `At` stamp the clock. */
  lemma StampWritesShape(op: Operation, user: Value, status: Value, originalStatus: Value, actor: string, now: string)
    ensures var w := StampWrites(op, user, status, originalStatus, actor, now);
      (|w| == if Publishes(op, user, status, originalStatus) then 4 else 2) &&
      forall i :: 0 <= i < |w| ==>
        w[i].1 == if w[i].0 in [CreatedByFieldName, UpdatedByFieldName, PublishedByFieldName] then Str(actor) else Str(now)
  {
  }

  /** The value each stamp is written with: the actor for the `By` stamps, the clock for the `At` stamps. */
  lemma StampWriteValues(op: Operation, user: Value, status: Value, originalStatus: Value, actor: string, now: string)
    ensures var w := StampWrites(op, user, status, originalStatus, actor, now);
      var publishes := Publishes(op, user, status, originalStatus);
      (op == Update ==> Lookup(w, UpdatedByFieldName) == Str(actor) && Lookup(w, UpdatedAtFieldName) == Str(now)) &&
      (op == Create ==> Lookup(w, CreatedByFieldName) == Str(actor) && Lookup(w, CreatedAtFieldName) == Str(now)) &&
      (publishes ==> Lookup(w, PublishedByFieldName) == Str(actor) && Lookup(w, PublishedAtFieldName) == Str(now))
  {
    var w := StampWrites(op, user, status, originalStatus, actor, now);
    if op == Update {
      FindFirst(w, UpdatedByFieldName, 0);
      FindFirst(w, UpdatedAtFieldName, 1);
    } else {
      FindFirst(w, CreatedByFieldName, 0);
      FindFirst(w, CreatedAtFieldName, 1);
    }
    if Publishes(op, user, status, originalStatus) {
      FindFirst(w, PublishedAtFieldName, 2);
      FindFirst(w, PublishedByFieldName, 3);
    }
  }

  /** A document without an audit group gets one holding exactly the stamps, in the order they are written. */
  lemma FreshAuditHoldsOnlyStamps(data: Entries, op: Operation, user: Value, originalDoc: Value,
                                  usernameField: string, now: string)
    requires Lookup(data, AuditGroupName).Undefined? || Lookup(data, AuditGroupName).Null?
    ensures var r := Stamped(data, op, user, originalDoc, usernameField, now);
      r.Returned? && Lookup(r.data, AuditGroupName).Obj? &&
      KeysOf(Lookup(r.data, AuditGroupName).entries) ==
        (if op == Update then [UpdatedByFieldName, UpdatedAtFieldName] else [CreatedByFieldName, CreatedAtFieldName]) +
        (if PublishesNow(data, op, user, originalDoc)
         then [PublishedAtFieldName, PublishedByFieldName] else [])
  {
    var status, originalStatus := Lookup(data, "_status"), Get(originalDoc, "_status");
    var actor := ActorText(user, usernameField);
    var w := StampWrites(op, user, status, originalStatus, actor, now);
    StampWritesNames(op, user, status, originalStatus, actor, now);
    FreshOverwriteKeys(w);
  }

  /** Assigning distinct properties to `{}` gives an object with exactly those keys, in order. */
  lemma {:induction false} FreshOverwriteKeys(w: Entries)
    requires NoDup(KeysOf(w))
    ensures KeysOf(Overwrite([], w)) == KeysOf(w)
  {
    OverwriteKeysAppend([], w);
  }

  lemma {:induction false} OverwriteKeysAppend(es: Entries, w: Entries)
    requires NoDup(KeysOf(w))
    requires forall k :: k in KeysOf(w) ==> k !in KeysOf(es)
    ensures KeysOf(Overwrite(es, w)) == KeysOf(es) + KeysOf(w)
    decreases |w|
  {
    if w != [] {
      var once, rest := SetEntry(es, w[0].0, w[0].1), w[1..];
      OverwriteFirstKey(es, w);
      OverwriteKeysAppend(once, rest);
      calc {
        KeysOf(Overwrite(es, w));
        KeysOf(Overwrite(once, rest));
        KeysOf(once) + KeysOf(rest);
        (KeysOf(es) + [w[0].0]) + KeysOf(rest);
        KeysOf(es) + ([w[0].0] + KeysOf(rest));
        KeysOf(es) + KeysOf(w);
      }
    }
  }

  /** The first write of `w` appends its fresh key, and the remaining writes stay fresh and distinct. */
  lemma OverwriteFirstKey(es: Entries, w: Entries)
    requires w != [] && NoDup(KeysOf(w))
    requires forall k :: k in KeysOf(w) ==> k !in KeysOf(es)
    ensures KeysOf(w) == [w[0].0] + KeysOf(w[1..])
    ensures KeysOf(SetEntry(es, w[0].0, w[0].1)) == KeysOf(es) + [w[0].0]
    ensures NoDup(KeysOf(w[1..]))
    ensures forall k :: k in KeysOf(w[1..]) ==> k !in KeysOf(SetEntry(es, w[0].0, w[0].1))
  {
    var k0, rest := w[0].0, w[1..];
    KeysOfTail(w);
    assert k0 in KeysOf(w);
    var once := SetEntry(es, k0, w[0].1);
    assert KeysOf(once) == KeysOf(es) + [k0];
    forall k | k in KeysOf(rest) ensures k !in KeysOf(once) {
      assert k in KeysOf(w);
    }
  }

  /** Published stamps need a user; a published document updated again is not published anew. */
  lemma PublishingRules(op: Operation, user: Value, status: Value, originalStatus: Value)
    ensures !Truthy(user) ==> !Publishes(op, user, status, originalStatus)
    ensures originalStatus == Str("published") && op == Update ==> !Publishes(op, user, status, originalStatus)
    ensures status != Str("published") ==> !Publishes(op, user, status, originalStatus)
    ensures Truthy(user) && status == Str("published") ==>
      (Publishes(op, user, status, originalStatus) <==> op == Create || originalStatus == Str("draft"))
  {
  }

  /** Without a user, or with a user lacking the fields, the actor is `System (-)`. */
  lemma ActorDefaults(user: Value, usernameField: string)
    ensures !Truthy(Get(user, usernameField)) ==> UserName(user, usernameField) == DefaultUsername
    ensures (Get(user, "id").Undefined? || Get(user, "id").Null?) ==> UserId(user) == DefaultId
    ensures !user.Obj? ==> ActorText(user, usernameField) == "System (-)"
  {
  }

  /** A user `{ id: 42, email: "ann@example.com" }` is written as `ann@example.com (42)`. */
  lemma ActorExample()
    ensures ActorText(Obj([("id", Num(42)), ("email", Str("ann@example.com"))]), DefaultUsernameField)
      == "ann@example.com (42)"
  {
    var user := Obj([("id", Num(42)), ("email", Str("ann@example.com"))]);
    assert Get(user, "email") == Str("ann@example.com");
    assert Get(user, "id") == Num(42);
    assert NatToDecimal(4) == "4";
    assert NatToDecimal(42) == "42";
  }

  /**
   * The name falls back on falsiness of the value, the id on emptiness of its
   * text: an id of 0 is kept as "0", a name of 0 becomes `System`.
   */
  lemma ZeroNameAndZeroId()
    ensures UserName(Obj([("id", Num(0)), ("email", Num(0))]), "email") == DefaultUsername
    ensures UserId(Obj([("id", Num(0)), ("email", Num(0))])) == "0"
  {
    var user := Obj([("id", Num(0)), ("email", Num(0))]);
    assert Get(user, "email") == Num(0);
    assert Get(user, "id") == Num(0);
    assert NatToDecimal(0) == "0";
  }
}
