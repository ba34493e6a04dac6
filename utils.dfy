/**
 * The key-name based audit diff and the redaction rewrite.
 *
 * `DiffObjects` walks a before and an after snapshot together and builds two
 * projections that hold only the keys that changed, with ignored key names
 * left out and redacted key names replaced by the marker. It is proved equal
 * to the specification function `DiffOf`, about which the lemmas below state
 * what the diff means. `RedactKeys` rewrites a value so that every listed key
 * name holds the marker, at any depth; it is proved equal to `Redact`.
 */
module Utils {
  import opened JsValue
  import opened Constants

  /** The key-name lists that `diffObjects` receives. */
  datatype DiffOptions = DiffOptions(ignoreKeys: seq<string>, redactKeys: seq<string>)

  /** The two projections `{ before, after }`. */
  datatype Diff = Diff(before: Entries, after: Entries)

  /** The marker as a value. */
  const Marker: Value := Str(Redacted)

  /** `new Set([...Object.keys(afterObj || {}), ...Object.keys(beforeObj || {})])`. */
  function UnionKeys(b: Value, a: Value): (ks: seq<string>)
    ensures NoDup(ks)
    ensures forall k :: k in ks <==> k in Keys(a) || k in Keys(b)
  {
    Dedup(Keys(a) + Keys(b))
  }

  // ---------------------------------------------------------------------------
  // The diff, as functions
  // ---------------------------------------------------------------------------

  /** The `{ before, after }` that `diffObjects(b, a, opts)` returns. */
  function DiffOf(b: Value, a: Value, opts: DiffOptions): Diff
    decreases b, 2, 0
  {
    DiffOver(UnionKeys(b, a), b, a, opts)
  }

  /** The projections after the loop has visited `keys`, in order. */
  function DiffOver(keys: seq<string>, b: Value, a: Value, opts: DiffOptions): Diff
    decreases b, 1, |keys|
  {
    if keys == [] then Diff([], [])
    else
      var key := keys[|keys| - 1];
      Record(DiffOver(keys[..|keys| - 1], b, a, opts), key, KeyChange(key, b, a, opts))
  }

  /** `before[key] = x; after[key] = y` when the iteration emits `(x, y)`. */
  function Record(d: Diff, key: string, change: Option<(Value, Value)>): Diff
  {
    match change
    case None => d
    case Some(pair) => Diff(SetEntry(d.before, key, pair.0), SetEntry(d.after, key, pair.1))
  }

  /**
   * What one iteration of the loop records for `key`: nothing, or the pair
   * of values written to the before and the after projection.
   */
  function KeyChange(key: string, b: Value, a: Value, opts: DiffOptions): Option<(Value, Value)>
    decreases b, 0, 0
  {
    var bv := Get(b, key);
    var av := Get(a, key);
    if key in opts.ignoreKeys then None
    else if !Changed(bv, av) then None
    else if key in opts.redactKeys then Some((Marker, Marker))
    else if bv.Obj? && av.Obj? then
      var nested := DiffOf(bv, av, opts);
      if |nested.before| > 0 || |nested.after| > 0 then Some((Obj(nested.before), Obj(nested.after)))
      else None
    else Some((bv, av))
  }

  // ---------------------------------------------------------------------------
  // The diff, as the source computes it
  // ---------------------------------------------------------------------------

  /**
   * `diffObjects`: one pass over the union of the keys, filling fresh
   * `before` and `after` objects, with a recursive call for two nested
   * objects.
   */
  method DiffObjects(beforeObj: Value, afterObj: Value, options: DiffOptions) returns (d: Diff)
    requires IsSnapshot(beforeObj) && IsSnapshot(afterObj)
    ensures d == DiffOf(beforeObj, afterObj, options)
    decreases beforeObj, 1
  {
    var before: Entries := [];
    var after: Entries := [];
    var keys := UnionKeys(beforeObj, afterObj);
    for i := 0 to |keys|
      invariant Diff(before, after) == DiffOver(keys[..i], beforeObj, afterObj, options)
    {
      DiffOverStep(keys, i, beforeObj, afterObj, options);
      before, after := DiffKey(keys[i], beforeObj, afterObj, options, before, after);
    }
    assert keys[..|keys|] == keys;
    d := Diff(before, after);
  }

  /** The body of the loop in `diffObjects` for one key. */
  method DiffKey(key: string, beforeObj: Value, afterObj: Value, options: DiffOptions,
                 before0: Entries, after0: Entries) returns (before: Entries, after: Entries)
    ensures Diff(before, after) == Record(Diff(before0, after0), key, KeyChange(key, beforeObj, afterObj, options))
    decreases beforeObj, 0
  {
    before, after := before0, after0;
    ghost var change := KeyChange(key, beforeObj, afterObj, options);
    var beforeVal := Get(beforeObj, key);
    var afterVal := Get(afterObj, key);
    if key in options.ignoreKeys {
      assert change == None;
      return;
    }
    var changed := Changed(beforeVal, afterVal);
    if !changed {
      assert change == None;
      return;
    }
    if key in options.redactKeys {
      assert change == Some((Marker, Marker));
      before := SetEntry(before, key, Marker);
      after := SetEntry(after, key, Marker);
      return;
    }
    if beforeVal.Obj? && afterVal.Obj? {
      var nested := DiffObjects(beforeVal, afterVal, options);
      if |nested.before| > 0 || |nested.after| > 0 {
        assert change == Some((Obj(nested.before), Obj(nested.after)));
        before := SetEntry(before, key, Obj(nested.before));
        after := SetEntry(after, key, Obj(nested.after));
      } else {
        assert change == None;
      }
      return;
    }
    assert change == Some((beforeVal, afterVal));
    before := SetEntry(before, key, beforeVal);
    after := SetEntry(after, key, afterVal);
  }

  /** One more iteration of the loop records the next key's change. */
  lemma DiffOverStep(keys: seq<string>, i: nat, b: Value, a: Value, opts: DiffOptions)
    requires i < |keys|
    ensures DiffOver(keys[..i + 1], b, a, opts) ==
            Record(DiffOver(keys[..i], b, a, opts), keys[i], KeyChange(keys[i], b, a, opts))
  {
    assert keys[..i + 1][..i] == keys[..i];
  }

  // ---------------------------------------------------------------------------
  // What the diff means
  // ---------------------------------------------------------------------------

  lemma GetDefinedIsKey(v: Value, k: string)
    requires !Get(v, k).Undefined?
    ensures k in Keys(v)
  {
    FindIsMember(v.entries, k);
  }

  /** The loop after `keys`: both sides have the same keys, each written by `KeyChange`. */
  lemma {:induction false} DiffOverAt(keys: seq<string>, b: Value, a: Value, opts: DiffOptions, k: string)
    ensures KeysOf(DiffOver(keys, b, a, opts).before) == KeysOf(DiffOver(keys, b, a, opts).after)
    ensures NoDup(KeysOf(DiffOver(keys, b, a, opts).before))
    ensures k in KeysOf(DiffOver(keys, b, a, opts).before) <==> k in keys && KeyChange(k, b, a, opts).Some?
    ensures k in keys && KeyChange(k, b, a, opts).Some? ==>
      Lookup(DiffOver(keys, b, a, opts).before, k) == KeyChange(k, b, a, opts).value.0 &&
      Lookup(DiffOver(keys, b, a, opts).after, k) == KeyChange(k, b, a, opts).value.1
    decreases |keys|
  {
    if keys != [] {
      var init := keys[..|keys| - 1];
      var key := keys[|keys| - 1];
      assert keys == init + [key];
      DiffOverAt(init, b, a, opts, k);
      RecordAt(DiffOver(init, b, a, opts), key, KeyChange(key, b, a, opts), k);
    }
  }

  /** One `Record` step keeps both sides' keys equal and distinct, and writes only `key`. */
  lemma RecordAt(d: Diff, key: string, change: Option<(Value, Value)>, k: string)
    requires KeysOf(d.before) == KeysOf(d.after) && NoDup(KeysOf(d.before))
    ensures var r := Record(d, key, change);
      KeysOf(r.before) == KeysOf(r.after) && NoDup(KeysOf(r.before)) &&
      (k in KeysOf(r.before) <==> k in KeysOf(d.before) || (k == key && change.Some?)) &&
      (k == key && change.Some? ==> Lookup(r.before, k) == change.value.0 && Lookup(r.after, k) == change.value.1) &&
      (k != key ==> Lookup(r.before, k) == Lookup(d.before, k) && Lookup(r.after, k) == Lookup(d.after, k))
  {
    if change.Some? {
      var nb := SetEntry(d.before, key, change.value.0);
      if key !in KeysOf(d.before) {
        assert KeysOf(nb) == KeysOf(d.before) + [key];
      }
    }
  }

  /**
   * The reference definition of the diff, key by key: a key is in the
   * before projection exactly when it is in the after projection, exactly
   * when `KeyChange` emits it, and then both sides hold the emitted values.
   */
  lemma DiffAt(b: Value, a: Value, opts: DiffOptions, k: string)
    ensures KeysOf(DiffOf(b, a, opts).before) == KeysOf(DiffOf(b, a, opts).after)
    ensures k in KeysOf(DiffOf(b, a, opts).before) <==> KeyChange(k, b, a, opts).Some?
    ensures KeyChange(k, b, a, opts).Some? ==>
      Lookup(DiffOf(b, a, opts).before, k) == KeyChange(k, b, a, opts).value.0 &&
      Lookup(DiffOf(b, a, opts).after, k) == KeyChange(k, b, a, opts).value.1
  {
    DiffOverAt(UnionKeys(b, a), b, a, opts, k);
    if KeyChange(k, b, a, opts).Some? {
      var bv, av := Get(b, k), Get(a, k);
      assert Changed(bv, av);
      if !bv.Undefined? {
        GetDefinedIsKey(b, k);
      } else {
        GetDefinedIsKey(a, k);
      }
    }
  }

  /**
   * Both projections have exactly the same keys, in the same order, without
   * repetition; every one is a key of an input and none is an ignored name.
   */
  lemma DiffShape(b: Value, a: Value, opts: DiffOptions)
    ensures KeysOf(DiffOf(b, a, opts).before) == KeysOf(DiffOf(b, a, opts).after)
    ensures |DiffOf(b, a, opts).before| == |DiffOf(b, a, opts).after|
    ensures NoDup(KeysOf(DiffOf(b, a, opts).before))
    ensures forall k :: k in KeysOf(DiffOf(b, a, opts).before) ==>
      (k in Keys(b) || k in Keys(a)) && k !in opts.ignoreKeys
  {
    var d := DiffOf(b, a, opts);
    DiffOverAt(UnionKeys(b, a), b, a, opts, "");
    assert |d.before| == |KeysOf(d.before)| == |KeysOf(d.after)| == |d.after|;
    forall k | k in KeysOf(d.before)
      ensures (k in Keys(b) || k in Keys(a)) && k !in opts.ignoreKeys
    {
      DiffOverAt(UnionKeys(b, a), b, a, opts, k);
    }
  }

  /** A diff in which no key is emitted is the empty pair. */
  lemma NoKeyMeansEmpty(b: Value, a: Value, opts: DiffOptions)
    requires forall k :: KeyChange(k, b, a, opts).None?
    ensures DiffOf(b, a, opts) == Diff([], [])
  {
    var d := DiffOf(b, a, opts);
    DiffShape(b, a, opts);
    if |d.before| > 0 {
      var k := d.before[0].0;
      assert KeysOf(d.before)[0] == k;
      DiffAt(b, a, opts, k);
      assert false;
    }
  }

  /** Inputs that differ at most under ignored names give `{ before: {}, after: {} }`. */
  lemma EmptyWhenOnlyIgnoredKeysDiffer(b: Value, a: Value, opts: DiffOptions)
    requires forall k :: k !in opts.ignoreKeys ==> !Changed(Get(b, k), Get(a, k))
    ensures DiffOf(b, a, opts) == Diff([], [])
  {
    NoKeyMeansEmpty(b, a, opts);
  }

  /** Diffing a snapshot against itself gives `{ before: {}, after: {} }`. */
  lemma DiffOfSelfIsEmpty(x: Value, opts: DiffOptions)
    ensures DiffOf(x, x, opts) == Diff([], [])
  {
    EmptyWhenOnlyIgnoredKeysDiffer(x, x, opts);
  }

  /** An ignored name is on neither side, whatever its values. */
  lemma IgnoredKeyOmitted(b: Value, a: Value, opts: DiffOptions, k: string)
    requires k in opts.ignoreKeys
    ensures k !in KeysOf(DiffOf(b, a, opts).before) && k !in KeysOf(DiffOf(b, a, opts).after)
  {
    DiffAt(b, a, opts, k);
  }

  /** A key whose two values serialise alike is on neither side, redacted name or not. */
  lemma UnchangedKeyOmitted(b: Value, a: Value, opts: DiffOptions, k: string)
    requires !Changed(Get(b, k), Get(a, k))
    ensures k !in KeysOf(DiffOf(b, a, opts).before) && k !in KeysOf(DiffOf(b, a, opts).after)
  {
    DiffAt(b, a, opts, k);
  }

  /**
   * A changed key with a redacted name holds the marker on both sides, even
   * when both of its values are objects: it is never descended into.
   */
  lemma ChangedRedactedKeyIsMarker(b: Value, a: Value, opts: DiffOptions, k: string)
    requires k !in opts.ignoreKeys && k in opts.redactKeys
    requires Changed(Get(b, k), Get(a, k))
    ensures k in KeysOf(DiffOf(b, a, opts).before) && k in KeysOf(DiffOf(b, a, opts).after)
    ensures Lookup(DiffOf(b, a, opts).before, k) == Marker
    ensures Lookup(DiffOf(b, a, opts).after, k) == Marker
  {
    DiffAt(b, a, opts, k);
  }

  /**
   * A changed key holding two objects is kept exactly when their nested diff,
   * under the same options, is non-empty, and then holds that nested diff.
   */
  lemma NestedObjectsDiff(b: Value, a: Value, opts: DiffOptions, k: string)
    requires k !in opts.ignoreKeys && k !in opts.redactKeys
    requires Get(b, k).Obj? && Get(a, k).Obj? && Changed(Get(b, k), Get(a, k))
    ensures var nested := DiffOf(Get(b, k), Get(a, k), opts);
      (k in KeysOf(DiffOf(b, a, opts).before) <==> |nested.before| > 0) &&
      (|nested.before| > 0 ==>
        Lookup(DiffOf(b, a, opts).before, k) == Obj(nested.before) &&
        Lookup(DiffOf(b, a, opts).after, k) == Obj(nested.after))
  {
    DiffAt(b, a, opts, k);
    DiffShape(Get(b, k), Get(a, k), opts);
  }

  /**
   * Two objects at a key that agree on every name that is not ignored are
   * dropped, even when they serialise differently (other key order, or a
   * difference under an ignored name).
   */
  lemma EquivalentObjectsDropped(b: Value, a: Value, opts: DiffOptions, k: string)
    requires k !in opts.redactKeys
    requires Get(b, k).Obj? && Get(a, k).Obj?
    requires forall k' :: k' !in opts.ignoreKeys ==> !Changed(Get(Get(b, k), k'), Get(Get(a, k), k'))
    ensures k !in KeysOf(DiffOf(b, a, opts).before) && k !in KeysOf(DiffOf(b, a, opts).after)
  {
    EmptyWhenOnlyIgnoredKeysDiffer(Get(b, k), Get(a, k), opts);
    DiffAt(b, a, opts, k);
  }

  /** Objects that differ only in key order count as changed, yet the diff is empty. */
  lemma KeyOrderOnlyIsDropped(opts: DiffOptions)
    requires "x" !in opts.redactKeys
    ensures var b := Obj([("x", Obj([("a", Num(1)), ("b", Num(2))]))]);
      var a := Obj([("x", Obj([("b", Num(2)), ("a", Num(1))]))]);
      Changed(Get(b, "x"), Get(a, "x")) && DiffOf(b, a, opts) == Diff([], [])
  {
    var inner1 := Obj([("a", Num(1)), ("b", Num(2))]);
    var inner2 := Obj([("b", Num(2)), ("a", Num(1))]);
    var b := Obj([("x", inner1)]);
    var a := Obj([("x", inner2)]);
    assert Get(b, "x") == inner1 && Get(a, "x") == inner2;
    assert Serial(inner1).entries[0].0 == "a" && Serial(inner2).entries[0].0 == "b";
    forall k' ensures !Changed(Get(inner1, k'), Get(inner2, k')) {
      if k' != "a" && k' != "b" {
        FindNone(inner1.entries, k');
        FindNone(inner2.entries, k');
      }
    }
    forall k ensures KeyChange(k, b, a, opts).None? {
      if k == "x" {
        EmptyWhenOnlyIgnoredKeysDiffer(inner1, inner2, opts);
      } else {
        FindNone(b.entries, k);
        FindNone(a.entries, k);
      }
    }
    NoKeyMeansEmpty(b, a, opts);
  }

  /**
   * Arrays, primitives and an object facing a non-object are leaves: a
   * changed key of that kind holds both raw values verbatim, `undefined` for
   * a side that lacks the key.
   */
  lemma LeafValuesVerbatim(b: Value, a: Value, opts: DiffOptions, k: string)
    requires k !in opts.ignoreKeys && k !in opts.redactKeys
    requires Changed(Get(b, k), Get(a, k))
    requires !(Get(b, k).Obj? && Get(a, k).Obj?)
    ensures k in KeysOf(DiffOf(b, a, opts).before)
    ensures Lookup(DiffOf(b, a, opts).before, k) == Get(b, k)
    ensures Lookup(DiffOf(b, a, opts).after, k) == Get(a, k)
  {
    DiffAt(b, a, opts, k);
  }

  /**
   * An absent (null, undefined or primitive) before snapshot counts as `{}`:
   * every key of the after snapshot that is defined and not ignored is
   * emitted, with `undefined` (or the marker) before and its value (or the
   * marker) after.
   */
  lemma AbsentBeforeSnapshot(b: Value, a: Value, opts: DiffOptions, k: string)
    requires !b.Obj?
    requires k in Keys(a) && k !in opts.ignoreKeys && !Get(a, k).Undefined?
    ensures k in KeysOf(DiffOf(b, a, opts).before)
    ensures Lookup(DiffOf(b, a, opts).before, k) == if k in opts.redactKeys then Marker else Undefined
    ensures Lookup(DiffOf(b, a, opts).after, k) == if k in opts.redactKeys then Marker else Get(a, k)
  {
    assert Changed(Get(b, k), Get(a, k));
    DiffAt(b, a, opts, k);
  }

  /** The mirror image: an absent after snapshot gives `undefined` after each emitted key. */
  lemma AbsentAfterSnapshot(b: Value, a: Value, opts: DiffOptions, k: string)
    requires !a.Obj?
    requires k in Keys(b) && k !in opts.ignoreKeys && !Get(b, k).Undefined?
    ensures k in KeysOf(DiffOf(b, a, opts).after)
    ensures Lookup(DiffOf(b, a, opts).before, k) == if k in opts.redactKeys then Marker else Get(b, k)
    ensures Lookup(DiffOf(b, a, opts).after, k) == if k in opts.redactKeys then Marker else Undefined
  {
    assert Changed(Get(b, k), Get(a, k));
    DiffAt(b, a, opts, k);
  }

  /**
   * The key-name policy holds at every level the diff descends into: no key
   * has an ignored name, a key with a redacted name holds the marker, and the
   * same holds inside every nested diff (a key where both inputs hold objects
   * and the projection holds an object). Raw values are not looked into.
   */
  ghost predicate PolicyHoldsAlong(es: Entries, b: Value, a: Value, opts: DiffOptions)
    decreases b
  {
    (forall k :: k in KeysOf(es) ==> k !in opts.ignoreKeys) &&
    (forall k :: k in KeysOf(es) && k in opts.redactKeys ==> Lookup(es, k) == Marker) &&
    (forall k :: k in KeysOf(es) && Get(b, k).Obj? && Get(a, k).Obj? && Lookup(es, k).Obj? ==>
       PolicyHoldsAlong(Lookup(es, k).entries, Get(b, k), Get(a, k), opts))
  }

  /**
   * The ignore and redact lists match key names at every level the diff
   * descends into (two plain objects); arrays and object-versus-non-object
   * leaves keep their contents.
   */
  lemma {:induction false} PolicyAtEveryDepth(b: Value, a: Value, opts: DiffOptions)
    ensures PolicyHoldsAlong(DiffOf(b, a, opts).before, b, a, opts)
    ensures PolicyHoldsAlong(DiffOf(b, a, opts).after, b, a, opts)
    decreases b
  {
    var d := DiffOf(b, a, opts);
    DiffShape(b, a, opts);
    forall k | k in KeysOf(d.before) && k in opts.redactKeys
      ensures Lookup(d.before, k) == Marker && Lookup(d.after, k) == Marker
    {
      DiffAt(b, a, opts, k);
    }
    forall k | k in KeysOf(d.before) && Get(b, k).Obj? && Get(a, k).Obj?
      ensures Lookup(d.before, k).Obj? ==>
        PolicyHoldsAlong(Lookup(d.before, k).entries, Get(b, k), Get(a, k), opts)
      ensures Lookup(d.after, k).Obj? ==>
        PolicyHoldsAlong(Lookup(d.after, k).entries, Get(b, k), Get(a, k), opts)
    {
      DiffAt(b, a, opts, k);
      if k !in opts.redactKeys {
        var nested := DiffOf(Get(b, k), Get(a, k), opts);
        assert Lookup(d.before, k) == Obj(nested.before);
        assert Lookup(d.after, k) == Obj(nested.after);
        PolicyAtEveryDepth(Get(b, k), Get(a, k), opts);
      }
    }
  }

  // ---------------------------------------------------------------------------
  // filterChangedKeysKeepObjects
  // ---------------------------------------------------------------------------

  /** The optional caller-supplied lists; a missing list counts as empty. */
  datatype FilterOptions = FilterOptions(ignoreKeys: Option<seq<string>>, redactKeys: Option<seq<string>>)

  function ListOrEmpty(l: Option<seq<string>>): seq<string>
  {
    match l
    case Some(s) => s
    case None => []
  }

  function CallerIgnoreKeys(opts: Option<FilterOptions>): seq<string>
  {
    if opts.Some? then ListOrEmpty(opts.value.ignoreKeys) else []
  }

  function CallerRedactKeys(opts: Option<FilterOptions>): seq<string>
  {
    if opts.Some? then ListOrEmpty(opts.value.redactKeys) else []
  }

  /** The global lists first, then the caller's. */
  function EffectiveOptions(opts: Option<FilterOptions>): (r: DiffOptions)
    ensures forall k :: k in r.ignoreKeys <==> k in GlobalIgnoreKeys || k in CallerIgnoreKeys(opts)
    ensures forall k :: k in r.redactKeys <==> k in GlobalRedactKeys || k in CallerRedactKeys(opts)
  {
    DiffOptions(GlobalIgnoreKeys + CallerIgnoreKeys(opts), GlobalRedactKeys + CallerRedactKeys(opts))
  }

  /**
   * `filterChangedKeysKeepObjects`: the diff under the global policy merged
   * with the caller's. The audit group, `loginAt` and `lastLogin` never
   * appear, and a changed globally redacted name (one the caller does not
   * ignore) always holds the marker.
   */
  function FilterChangedKeysKeepObjects(beforeObj: Value, afterObj: Value, opts: Option<FilterOptions>): (d: Diff)
    requires IsSnapshot(beforeObj) && IsSnapshot(afterObj)
    ensures KeysOf(d.before) == KeysOf(d.after)
    ensures forall k :: k in GlobalIgnoreKeys || k in CallerIgnoreKeys(opts) ==>
      k !in KeysOf(d.before) && k !in KeysOf(d.after)
    ensures forall k :: k in GlobalRedactKeys && k !in CallerIgnoreKeys(opts) ==>
      (k in KeysOf(d.before) <==> Changed(Get(beforeObj, k), Get(afterObj, k)))
    ensures forall k :: k in KeysOf(d.before) && (k in GlobalRedactKeys || k in CallerRedactKeys(opts)) ==>
      Lookup(d.before, k) == Marker && Lookup(d.after, k) == Marker
  {
    FilterPolicyFor(beforeObj, afterObj, opts);
    DiffOf(beforeObj, afterObj, EffectiveOptions(opts))
  }

  lemma FilterPolicyFor(b: Value, a: Value, opts: Option<FilterOptions>)
    ensures var d := DiffOf(b, a, EffectiveOptions(opts));
      KeysOf(d.before) == KeysOf(d.after) &&
      (forall k :: k in GlobalIgnoreKeys || k in CallerIgnoreKeys(opts) ==>
        k !in KeysOf(d.before) && k !in KeysOf(d.after)) &&
      (forall k :: k in GlobalRedactKeys && k !in CallerIgnoreKeys(opts) ==>
        (k in KeysOf(d.before) <==> Changed(Get(b, k), Get(a, k)))) &&
      (forall k :: k in KeysOf(d.before) && (k in GlobalRedactKeys || k in CallerRedactKeys(opts)) ==>
        Lookup(d.before, k) == Marker && Lookup(d.after, k) == Marker)
  {
    var options := EffectiveOptions(opts);
    var d := DiffOf(b, a, options);
    FilterPolicy(b, a, options);
    forall k | k in GlobalRedactKeys && k !in CallerIgnoreKeys(opts)
      ensures k in KeysOf(d.before) <==> Changed(Get(b, k), Get(a, k))
    {
      assert k in options.redactKeys;
      GlobalListsDisjoint();
      assert k !in options.ignoreKeys;
    }
  }

  lemma FilterPolicy(b: Value, a: Value, options: DiffOptions)
    ensures KeysOf(DiffOf(b, a, options).before) == KeysOf(DiffOf(b, a, options).after)
    ensures forall k :: k in options.ignoreKeys ==> k !in KeysOf(DiffOf(b, a, options).before)
    ensures forall k :: k in options.redactKeys && k !in options.ignoreKeys ==>
      (k in KeysOf(DiffOf(b, a, options).before) <==> Changed(Get(b, k), Get(a, k)))
    ensures forall k :: k in KeysOf(DiffOf(b, a, options).before) && k in options.redactKeys ==>
      Lookup(DiffOf(b, a, options).before, k) == Marker && Lookup(DiffOf(b, a, options).after, k) == Marker
  {
    DiffShape(b, a, options);
    forall k ensures
      (k in options.ignoreKeys ==> k !in KeysOf(DiffOf(b, a, options).before)) &&
      (k in options.redactKeys && k !in options.ignoreKeys ==>
        (k in KeysOf(DiffOf(b, a, options).before) <==> Changed(Get(b, k), Get(a, k)))) &&
      (k in KeysOf(DiffOf(b, a, options).before) && k in options.redactKeys ==>
        Lookup(DiffOf(b, a, options).before, k) == Marker && Lookup(DiffOf(b, a, options).after, k) == Marker)
    {
      DiffAt(b, a, options, k);
    }
  }

  /** A caller's ignore list wins over redaction: a name on both lists is left out. */
  lemma CallerIgnoreBeatsRedaction(b: Value, a: Value, opts: Option<FilterOptions>, k: string)
    requires IsSnapshot(b) && IsSnapshot(a)
    requires k in CallerIgnoreKeys(opts) && k in GlobalRedactKeys
    ensures k !in KeysOf(FilterChangedKeysKeepObjects(b, a, opts).before)
  {
  }

  /** A changed `password` under the global policy alone is redacted on both sides. */
  lemma ChangedPasswordRedacted(b: Value, a: Value)
    requires IsSnapshot(b) && IsSnapshot(a)
    requires Changed(Get(b, "password"), Get(a, "password"))
    ensures Lookup(FilterChangedKeysKeepObjects(b, a, None).before, "password") == Marker
    ensures Lookup(FilterChangedKeysKeepObjects(b, a, None).after, "password") == Marker
    ensures "password" in KeysOf(FilterChangedKeysKeepObjects(b, a, None).after)
  {
  }

  /**
   * Names are matched only where the diff descends, into two plain objects.
   * A changed value stored raw keeps whatever it holds: a `password` inside
   * an object that became `null`, or inside an array element, comes through
   * unredacted.
   */
  lemma RawObjectKeepsListedNames()
    ensures var b := Obj([("profile", Obj([("password", Str("hunter2"))]))]);
      var a := Obj([("profile", Null)]);
      Lookup(FilterChangedKeysKeepObjects(b, a, None).before, "profile") == Obj([("password", Str("hunter2"))])
  {
    var secret := Obj([("password", Str("hunter2"))]);
    var b, a := Obj([("profile", secret)]), Obj([("profile", Null)]);
    assert Get(b, "profile") == secret && Get(a, "profile") == Null;
    assert "profile" !in GlobalIgnoreKeys && "profile" !in GlobalRedactKeys;
    FilteredLeafIsRaw(b, a, "profile");
  }

  /** The same inside an array: its elements are not looked into. */
  lemma RawArrayKeepsListedNames()
    ensures var b := Obj([("list", Arr([Obj([("password", Str("hunter2"))])]))]);
      var a := Obj([("list", Arr([]))]);
      Lookup(FilterChangedKeysKeepObjects(b, a, None).before, "list") == Arr([Obj([("password", Str("hunter2"))])])
  {
    var secret := Obj([("password", Str("hunter2"))]);
    var b, a := Obj([("list", Arr([secret]))]), Obj([("list", Arr([]))]);
    assert Get(b, "list") == Arr([secret]) && Get(a, "list") == Arr([]);
    assert |Serial(Arr([secret])).items| != |Serial(Arr([])).items|;
    assert "list" !in GlobalIgnoreKeys && "list" !in GlobalRedactKeys;
    FilteredLeafIsRaw(b, a, "list");
  }

  /** Under the global lists alone, a changed leaf with an unlisted name is stored raw. */
  lemma FilteredLeafIsRaw(b: Value, a: Value, k: string)
    requires IsSnapshot(b) && IsSnapshot(a)
    requires k !in GlobalIgnoreKeys && k !in GlobalRedactKeys
    requires Changed(Get(b, k), Get(a, k)) && !(Get(b, k).Obj? && Get(a, k).Obj?)
    ensures Lookup(FilterChangedKeysKeepObjects(b, a, None).before, k) == Get(b, k)
    ensures Lookup(FilterChangedKeysKeepObjects(b, a, None).after, k) == Get(a, k)
  {
    var options := EffectiveOptions(None);
    assert options == DiffOptions(GlobalIgnoreKeys, GlobalRedactKeys);
    LeafValuesVerbatim(b, a, options, k);
  }

  // ---------------------------------------------------------------------------
  // redactKeys
  // ---------------------------------------------------------------------------

  /** What `redactKeys` returns when the combined list of names is `names`. */
  function Redact(v: Value, names: seq<string>): Value
  {
    match v
    case Arr(items) => Arr(seq(|items|, i requires 0 <= i < |items| => Redact(items[i], names)))
    case Obj(es) =>
      Obj(seq(|es|, i requires 0 <= i < |es| =>
            (es[i].0, if es[i].0 in names then Marker else Redact(es[i].1, names))))
    case _ => v
  }

  /**
   * `redactKeys(obj, keysToRedact)`: primitives and null returned as they
   * are, arrays mapped element by element, objects rebuilt entry by entry.
   */
  method RedactKeys(obj: Value, keysToRedact: seq<string>) returns (r: Value)
    ensures r == Redact(obj, GlobalRedactKeys + keysToRedact)
    decreases obj
  {
    ghost var names := GlobalRedactKeys + keysToRedact;
    if !(obj.Arr? || obj.Obj?) {
      return obj;
    }
    if obj.Arr? {
      var items: seq<Value> := [];
      for i := 0 to |obj.items|
        invariant |items| == i
        invariant forall j :: 0 <= j < i ==> items[j] == Redact(obj.items[j], names)
      {
        var item := RedactKeys(obj.items[i], keysToRedact);
        items := items + [item];
      }
      return Arr(items);
    }
    var combinedKeys := GlobalRedactKeys + keysToRedact;
    var result: Entries := [];
    for i := 0 to |obj.entries|
      invariant |result| == i
      invariant forall j :: 0 <= j < i ==>
        result[j] == (obj.entries[j].0, if obj.entries[j].0 in names then Marker else Redact(obj.entries[j].1, names))
    {
      var (key, value) := obj.entries[i];
      if key in combinedKeys {
        result := result + [(key, Marker)];
      } else if Truthy(value) && (value.Obj? || value.Arr?) {
        var inner := RedactKeys(value, keysToRedact);
        result := result + [(key, inner)];
      } else {
        result := result + [(key, value)];
      }
    }
    r := Obj(result);
  }

  /**
   * Every object inside `v`, at any depth and inside arrays, holds the
   * marker under each listed name.
   */
  ghost predicate FullyRedacted(v: Value, names: seq<string>)
  {
    match v
    case Arr(items) => forall i :: 0 <= i < |items| ==> FullyRedacted(items[i], names)
    case Obj(es) =>
      forall i :: 0 <= i < |es| ==>
        (es[i].0 in names ==> es[i].1 == Marker) && FullyRedacted(es[i].1, names)
    case _ => true
  }

  /** The rewrite keeps the shape: same kind, same array length, same keys in the same order. */
  lemma RedactKeepsShape(v: Value, names: seq<string>)
    ensures v.Arr? <==> Redact(v, names).Arr?
    ensures v.Obj? <==> Redact(v, names).Obj?
    ensures !v.Arr? && !v.Obj? ==> Redact(v, names) == v
    ensures v.Arr? ==> |Redact(v, names).items| == |v.items|
    ensures v.Obj? ==> KeysOf(Redact(v, names).entries) == KeysOf(v.entries)
    ensures v.Obj? ==> forall k :: k in KeysOf(v.entries) ==>
      Lookup(Redact(v, names).entries, k) ==
        if k in names then Marker else Redact(Lookup(v.entries, k), names)
  {
    if v.Obj? {
      var es := v.entries;
      var rs := Redact(v, names).entries;
      assert KeysOf(rs) == KeysOf(es);
      forall k | k in KeysOf(es)
        ensures Lookup(rs, k) == if k in names then Marker else Redact(Lookup(es, k), names)
      {
        FindIsMember(es, k);
        var i := Find(es, k);
        FindFirst(rs, k, i);
      }
    }
  }

  /** Every listed name holds the marker at every depth of the result. */
  lemma {:induction false} RedactContains(v: Value, names: seq<string>)
    ensures FullyRedacted(Redact(v, names), names)
  {
    match v
    case Arr(items) =>
      forall i | 0 <= i < |items| ensures FullyRedacted(Redact(v, names).items[i], names) {
        RedactContains(items[i], names);
      }
    case Obj(es) =>
      forall i | 0 <= i < |es| ensures FullyRedacted(Redact(v, names).entries[i].1, names) {
        if es[i].0 !in names {
          RedactContains(es[i].1, names);
        }
      }
    case _ =>
  }

  /** A value that is already fully redacted is left as it is. */
  lemma {:induction false} RedactFixesRedacted(v: Value, names: seq<string>)
    requires FullyRedacted(v, names)
    ensures Redact(v, names) == v
  {
    match v
    case Arr(items) =>
      forall i | 0 <= i < |items| ensures Redact(items[i], names) == items[i] {
        RedactFixesRedacted(items[i], names);
      }
      assert Redact(v, names).items == items;
    case Obj(es) =>
      forall i | 0 <= i < |es|
        ensures (es[i].0, if es[i].0 in names then Marker else Redact(es[i].1, names)) == es[i]
      {
        if es[i].0 !in names {
          RedactFixesRedacted(es[i].1, names);
        }
      }
      assert Redact(v, names).entries == es;
    case _ =>
  }

  /** Redacting twice is redacting once. */
  lemma RedactIdempotent(v: Value, names: seq<string>)
    ensures Redact(Redact(v, names), names) == Redact(v, names)
  {
    RedactContains(v, names);
    RedactFixesRedacted(Redact(v, names), names);
  }
}
