/**
 * JavaScript values as the audit plugin sees them: the untyped, JSON-like
 * documents that the data layer hands to its hooks.
 *
 * Objects keep their entries in insertion order, because `JSON.stringify`,
 * which the plugin uses to decide whether a value changed, is sensitive to
 * that order. Property access and `Object.keys` are modelled on own,
 * enumerable properties only.
 */
module JsValue {

  datatype Option<+T> = None | Some(value: T)

  datatype Value =
    | Undefined
    | Null
    | Bool(b: bool)
    | Num(n: int)
    | Str(s: string)
    | Arr(items: seq<Value>)
    | Obj(entries: seq<(string, Value)>)

  /** The own enumerable properties of an object, in insertion order. */
  type Entries = seq<(string, Value)>

  /** `Object.keys` of an object given by its entries. */
  function KeysOf(es: Entries): seq<string>
  {
    seq(|es|, i requires 0 <= i < |es| => es[i].0)
  }

  /** Position of the first entry named `k`, or `|es|` when there is none. */
  function Find(es: Entries, k: string): (i: nat)
    ensures i <= |es|
    ensures i < |es| ==> es[i].0 == k
    ensures forall j :: 0 <= j < i ==> es[j].0 != k
  {
    if es == [] then 0
    else if es[0].0 == k then 0
    else 1 + Find(es[1..], k)
  }

  lemma FindIsMember(es: Entries, k: string)
    ensures Find(es, k) < |es| <==> k in KeysOf(es)
  {
    var i := Find(es, k);
    if i < |es| {
      assert KeysOf(es)[i] == k;
    }
  }

  /** `obj[k]` on an object given by its entries; a missing key reads as `undefined`. */
  function Lookup(es: Entries, k: string): Value
  {
    var i := Find(es, k);
    if i < |es| then es[i].1 else Undefined
  }

  /** `v?.[k]`: only objects have own enumerable properties here. */
  function Get(v: Value, k: string): Value
  {
    match v
    case Obj(es) => Lookup(es, k)
    case _ => Undefined
  }

  /** `Object.keys(v || {})` for a value that is an object, nullish or a primitive without own keys. */
  function Keys(v: Value): seq<string>
  {
    match v
    case Obj(es) => KeysOf(es)
    case _ => []
  }

  /**
   * A value whose own enumerable properties are exactly its entries: an
   * object, `null`, `undefined`, a boolean, a number, the empty string or the
   * empty array. A non-empty string or array would expose its characters or
   * elements under index keys.
   */
  predicate IsSnapshot(v: Value)
  {
    match v
    case Str(s) => s == ""
    case Arr(items) => items == []
    case _ => true
  }

  /** `obj[k] = v`: an existing property keeps its position, a new one goes last. */
  function SetEntry(es: Entries, k: string, v: Value): (r: Entries)
    ensures KeysOf(r) == if k in KeysOf(es) then KeysOf(es) else KeysOf(es) + [k]
    ensures Lookup(r, k) == v
    ensures forall k' :: k' != k ==> Lookup(r, k') == Lookup(es, k')
  {
    var i := Find(es, k);
    FindIsMember(es, k);
    var r := if i < |es| then es[..i] + [(k, v)] + es[i + 1..] else es + [(k, v)];
    assert KeysOf(r) == if k in KeysOf(es) then KeysOf(es) else KeysOf(es) + [k];
    FindAfterSet(es, i, k, v, r);
    r
  }

  lemma FindAfterSet(es: Entries, i: nat, k: string, v: Value, r: Entries)
    requires i == Find(es, k)
    requires r == if i < |es| then es[..i] + [(k, v)] + es[i + 1..] else es + [(k, v)]
    ensures Lookup(r, k) == v
    ensures forall k' :: k' != k ==> Lookup(r, k') == Lookup(es, k')
  {
    assert |r| == if i < |es| then |es| else |es| + 1;
    assert r[i] == (k, v);
    assert forall m :: 0 <= m < |es| && m != i ==> r[m] == es[m];
    FindFirst(r, k, i);
    forall k' | k' != k
      ensures Lookup(r, k') == Lookup(es, k')
    {
      LookupOtherAfterSet(es, i, k, v, r, k');
    }
  }

  /** Replacing or appending the entry at `i` leaves every other name's lookup alone. */
  lemma LookupOtherAfterSet(es: Entries, i: nat, k: string, v: Value, r: Entries, k': string)
    requires i <= |es| && |r| == (if i < |es| then |es| else |es| + 1)
    requires r[i] == (k, v) && k' != k && (i < |es| ==> es[i].0 == k)
    requires forall m :: 0 <= m < |es| && m != i ==> r[m] == es[m]
    ensures Lookup(r, k') == Lookup(es, k')
  {
    var j := Find(es, k');
    if j < |es| {
      assert r[j] == es[j];
      FindFirst(r, k', j);
    } else {
      FindNone(r, k');
    }
  }

  /** Assigning the same property twice leaves only the second value. */
  lemma SetEntryTwice(es: Entries, k: string, v1: Value, v2: Value)
    ensures SetEntry(SetEntry(es, k, v1), k, v2) == SetEntry(es, k, v2)
  {
    var i := Find(es, k);
    var once := SetEntry(es, k, v1);
    if i < |es| {
      assert once == es[..i] + [(k, v1)] + es[i + 1..];
      assert once[i] == (k, v1) && forall j :: 0 <= j < i ==> once[j] == es[j];
      FindFirst(once, k, i);
      assert once[..i] == es[..i] && once[i + 1..] == es[i + 1..];
    } else {
      assert once == es + [(k, v1)];
      assert once[|es|] == (k, v1) && forall j :: 0 <= j < |es| ==> once[j] == es[j];
      FindFirst(once, k, |es|);
      assert once[..|es|] == es && once[|es| + 1..] == [];
    }
  }

  lemma FindFirst(es: Entries, k: string, i: nat)
    requires i < |es| && es[i].0 == k
    requires forall j :: 0 <= j < i ==> es[j].0 != k
    ensures Find(es, k) == i
  {
  }

  lemma FindNone(es: Entries, k: string)
    requires forall j :: 0 <= j < |es| ==> es[j].0 != k
    ensures Find(es, k) == |es|
  {
  }

  /** No element occurs twice. */
  predicate NoDup<T(==)>(s: seq<T>)
  {
    forall i, j :: 0 <= i < j < |s| ==> s[i] != s[j]
  }

  /**
   * `[...new Set(s)]`: the elements of `s` in order of first occurrence.
   */
  function Dedup(s: seq<string>): (r: seq<string>)
    ensures NoDup(r)
    ensures forall x :: x in r <==> x in s
    ensures |r| <= |s|
    ensures NoDup(s) ==> r == s
  {
    if s == [] then []
    else
      var r := Dedup(s[..|s| - 1]);
      assert s == s[..|s| - 1] + [s[|s| - 1]];
      if s[|s| - 1] in r then r else r + [s[|s| - 1]]
  }

  /** Order of first occurrence: deduplicating a prefix of `s` gives a prefix of `Dedup(s)`. */
  lemma {:induction false} DedupPrefix(s: seq<string>, n: nat)
    requires n <= |s|
    ensures Dedup(s[..n]) <= Dedup(s)
    decreases |s| - n
  {
    if n == |s| {
      assert s[..n] == s;
    } else {
      DedupPrefix(s, n + 1);
      assert s[..n + 1][..n] == s[..n];
    }
  }

  /**
   * What `JSON.stringify` makes of a value, as a value again: object entries
   * whose value serialises to nothing are dropped, array elements that do are
   * written as `null`. Two values serialise to the same text exactly when
   * `Serial` maps them to the same value; `undefined` itself has no text.
   */
  function Serial(v: Value): (r: Value)
    ensures r.Undefined? <==> v.Undefined?
    ensures !v.Arr? && !v.Obj? ==> r == v
  {
    match v
    case Arr(items) =>
      Arr(seq(|items|, i requires 0 <= i < |items| =>
            var x := Serial(items[i]); if x.Undefined? then Null else x))
    case Obj(es) =>
      Obj(DropUndefined(seq(|es|, i requires 0 <= i < |es| => (es[i].0, Serial(es[i].1)))))
    case _ => v
  }

  /**
   * What serialising keeps: an array keeps its length, each `undefined`
   * element becoming `null`; an object keeps exactly its entries whose value
   * is not `undefined`, each value serialised in turn.
   */
  lemma SerialMeaning(v: Value)
    ensures v.Arr? ==> (Serial(v).Arr? && |Serial(v).items| == |v.items| &&
      forall i :: 0 <= i < |v.items| ==>
        Serial(v).items[i] == if v.items[i].Undefined? then Null else Serial(v.items[i]))
    ensures v.Obj? ==> (Serial(v).Obj? &&
      forall e :: e in Serial(v).entries <==>
        exists i :: 0 <= i < |v.entries| && !v.entries[i].1.Undefined? && e == (v.entries[i].0, Serial(v.entries[i].1)))
    ensures v.Obj? && (forall i :: 0 <= i < |v.entries| ==> !v.entries[i].1.Undefined?) ==>
      KeysOf(Serial(v).entries) == KeysOf(v.entries)
  {
    if v.Obj? {
      var es := v.entries;
      var serialised := seq(|es|, i requires 0 <= i < |es| => (es[i].0, Serial(es[i].1)));
      var r := Serial(v).entries;
      assert r == DropUndefined(serialised);
      forall e ensures e in r <==>
        exists i :: 0 <= i < |es| && !es[i].1.Undefined? && e == (es[i].0, Serial(es[i].1)) {
        if e in r {
          var j :| 0 <= j < |serialised| && serialised[j] == e;
          assert !es[j].1.Undefined?;
        }
        if exists i :: 0 <= i < |es| && !es[i].1.Undefined? && e == (es[i].0, Serial(es[i].1)) {
          var i :| 0 <= i < |es| && !es[i].1.Undefined? && e == (es[i].0, Serial(es[i].1));
          assert serialised[i] == e;
        }
      }
      if forall i :: 0 <= i < |es| ==> !es[i].1.Undefined? {
        assert forall i :: 0 <= i < |serialised| ==> !serialised[i].1.Undefined?;
        assert r == serialised;
        assert KeysOf(r) == KeysOf(es);
      }
    }
  }

  /** The entries whose value is not `undefined`, in their order. */
  function DropUndefined(es: Entries): (r: Entries)
    ensures forall i :: 0 <= i < |r| ==> !r[i].1.Undefined?
    ensures forall e :: e in r <==> e in es && !e.1.Undefined?
    ensures (forall i :: 0 <= i < |es| ==> !es[i].1.Undefined?) ==> r == es
  {
    if es == [] then []
    else if es[0].1.Undefined? then DropUndefined(es[1..])
    else [es[0]] + DropUndefined(es[1..])
  }

  /** Dropping works entry by entry: the kept entries of `x + y` are those of `x`, then those of `y`. */
  lemma {:induction false} DropUndefinedAppend(x: Entries, y: Entries)
    ensures DropUndefined(x + y) == DropUndefined(x) + DropUndefined(y)
    decreases |x|
  {
    if x == [] {
      assert x + y == y;
    } else {
      assert (x + y)[0] == x[0];
      assert (x + y)[1..] == x[1..] + y;
      DropUndefinedAppend(x[1..], y);
    }
  }

  /** `JSON.stringify(a) !== JSON.stringify(b)`. */
  predicate Changed(a: Value, b: Value)
  {
    Serial(a) != Serial(b)
  }

  /** JavaScript truthiness. */
  predicate Truthy(v: Value)
  {
    match v
    case Undefined => false
    case Null => false
    case Bool(b) => b
    case Num(n) => n != 0
    case Str(s) => s != ""
    case _ => true
  }

  /** The number a string of decimal digits denotes. */
  ghost function DecimalValue(r: string): int
    requires forall i :: 0 <= i < |r| ==> '0' <= r[i] <= '9'
  {
    if r == [] then 0 else 10 * DecimalValue(r[..|r| - 1]) + (r[|r| - 1] as int - '0' as int)
  }

  /** Decimal digits of a natural number, without leading zeros. */
  function NatToDecimal(n: nat): (r: string)
    ensures |r| > 0
    ensures forall i :: 0 <= i < |r| ==> '0' <= r[i] <= '9'
    ensures DecimalValue(r) == n
    ensures r[0] == '0' ==> n == 0 && r == "0"
    decreases n
  {
    var d := [(('0' as int) + n % 10) as char];
    if n < 10 then d
    else
      var r := NatToDecimal(n / 10) + d;
      assert r[..|r| - 1] == NatToDecimal(n / 10);
      r
  }

  /** `String(n)` for an integer. */
  function IntToDecimal(n: int): string
  {
    if n < 0 then "-" + NatToDecimal(-n) else NatToDecimal(n)
  }

  /** `String(v)`, as a template literal or `toString()` converts a value. */
  function ToText(v: Value): string
  {
    match v
    case Undefined => "undefined"
    case Null => "null"
    case Bool(b) => if b then "true" else "false"
    case Num(n) => IntToDecimal(n)
    case Str(s) => s
    case Arr(items) =>
      Join(seq(|items|, i requires 0 <= i < |items| =>
             if items[i].Undefined? || items[i].Null? then "" else ToText(items[i])))
    case Obj(_) => "[object Object]"
  }

  /** `Array.prototype.join(",")` on already converted elements. */
  function Join(parts: seq<string>): string
  {
    if parts == [] then ""
    else if |parts| == 1 then parts[0]
    else parts[0] + "," + Join(parts[1..])
  }
}
