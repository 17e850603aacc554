/** JSON values. */
module JsonValue {
  // A `Json` is the mathematical value: an object is a map. A `Value` is what the program holds in
  // memory: an object is a list of entries in the iteration order of its hash table, which two
  // equal objects need not share.

  import opened Wrappers

  /** The range of the C++ `int` that integer values are stored in. */
  type int32 = x: int | -0x8000_0000 <= x <= 0x7FFF_FFFF

  /** A double. The two zeros, which are equal, are one value here. */
  datatype Float = NaN | Infinity(negative: bool) | Real(r: real)

  datatype Json =
    | Null
    | Bool(b: bool)
    | Int(i: int32)
    | Double(d: Float)
    | Str(s: string)
    | Arr(items: seq<Json>)
    | Obj(members: map<string, Json>)

  datatype Value =
    | VNull
    | VBool(b: bool)
    | VInt(i: int32)
    | VDouble(d: Float)
    | VStr(s: string)
    | VArr(items: seq<Value>)
    | VObj(entries: seq<Entry>)

  datatype Entry = Entry(key: string, value: Value)

  /** Every object of the value holds each key once, as a hash table does. */
  predicate WellFormed(v: Value)
    decreases v
  {
    match v
    case VArr(items) => forall i | 0 <= i < |items| :: WellFormed(items[i])
    case VObj(entries) => DistinctKeys(entries) && forall i | 0 <= i < |entries| :: WellFormed(entries[i].value)
    case _ => true
  }

  predicate DistinctKeys(entries: seq<Entry>) {
    forall i, j | 0 <= i < j < |entries| :: entries[i].key != entries[j].key
  }

  /** The mathematical value that an in-memory value stands for. */
  function Meaning(v: Value): (j: Json)
    decreases v, 0
  {
    match v
    case VNull => Null
    case VBool(b) => Bool(b)
    case VInt(i) => Int(i)
    case VDouble(d) => Double(d)
    case VStr(s) => Str(s)
    case VArr(items) => Arr(MeaningItems(items))
    case VObj(entries) => Obj(MeaningEntries(entries))
  }

  function MeaningItems(items: seq<Value>): (js: seq<Json>)
    ensures |js| == |items|
    ensures forall i | 0 <= i < |items| :: js[i] == Meaning(items[i])
    decreases items, 0
  {
    if items == [] then [] else MeaningItems(items[..|items| - 1]) + [Meaning(items[|items| - 1])]
  }

  function MeaningEntries(entries: seq<Entry>): (m: map<string, Json>)
    ensures m.Keys == KeysOf(entries)
    decreases entries, 0
  {
    if entries == [] then map[]
    else
      var front, last := entries[..|entries| - 1], entries[|entries| - 1];
      assert entries == front + [last];
      MeaningEntries(front)[last.key := Meaning(last.value)]
  }

  function KeysOf(entries: seq<Entry>): set<string> {
    set i | 0 <= i < |entries| :: entries[i].key
  }

  /** The map of an entry list with distinct keys holds the value of each entry. */
  lemma {:induction false} MeaningEntriesLookup(entries: seq<Entry>, i: nat)
    requires i < |entries| && DistinctKeys(entries)
    ensures entries[i].key in MeaningEntries(entries)
    ensures MeaningEntries(entries)[entries[i].key] == Meaning(entries[i].value)
  {
    assert entries[i] in entries;
    if i < |entries| - 1 {
      MeaningEntriesLookup(entries[..|entries| - 1], i);
    }
  }

  lemma {:induction false} DistinctKeysCount(entries: seq<Entry>)
    requires DistinctKeys(entries)
    ensures |KeysOf(entries)| == |entries|
  {
    if entries != [] {
      var front, last := entries[..|entries| - 1], entries[|entries| - 1];
      DistinctKeysCount(front);
      assert entries == front + [last];
      assert KeysOf(entries) == KeysOf(front) + {last.key};
      assert last.key !in KeysOf(front);
    }
  }

  /** The position of a key in an entry list, as the hash table's find returns it. */
  function Find(entries: seq<Entry>, key: string): (r: Option<nat>)
    ensures r.Some? ==> r.value < |entries| && entries[r.value].key == key
    ensures r.None? ==> forall i | 0 <= i < |entries| :: entries[i].key != key
  {
    if entries == [] then None
    else if entries[|entries| - 1].key == key then Some(|entries| - 1)
    else Find(entries[..|entries| - 1], key)
  }

  /** Value::operator==: same type, then the same payload; objects are compared as
      std::unordered_map does, by size and then by looking every entry up in the other table. */
  predicate Equal(a: Value, b: Value)
    decreases a
  {
    match (a, b)
    case (VNull, VNull) => true
    case (VBool(x), VBool(y)) => x == y
    case (VInt(x), VInt(y)) => x == y
    case (VDouble(x), VDouble(y)) => x == y && !x.NaN?
    case (VStr(x), VStr(y)) => x == y
    case (VArr(x), VArr(y)) => |x| == |y| && forall i | 0 <= i < |x| :: Equal(x[i], y[i])
    case (VObj(x), VObj(y)) =>
      |x| == |y| && forall i | 0 <= i < |x| :: FoundEqual(x[i], y)
    case _ => false
  }

  predicate FoundEqual(e: Entry, table: seq<Entry>)
    decreases e
  {
    var f := Find(table, e.key);
    f.Some? && Equal(e.value, table[f.value].value)
  }

  /** No double of the value is NaN. */
  predicate NoNaN(v: Value)
    decreases v
  {
    match v
    case VDouble(d) => !d.NaN?
    case VArr(items) => forall i | 0 <= i < |items| :: NoNaN(items[i])
    case VObj(entries) => forall i | 0 <= i < |entries| :: NoNaN(entries[i].value)
    case _ => true
  }

  /** What operator== decides of two values. */
  predicate SameNumbers(a: Value, b: Value) {
    Meaning(a) == Meaning(b) && NoNaN(a)
  }

  /** operator== holds of two well-formed values exactly when they stand for the same JSON
      value, whatever the iteration orders of their hash tables, and hold no NaN. */
  lemma {:induction false} EqualIffSameMeaning(a: Value, b: Value)
    requires WellFormed(a) && WellFormed(b)
    ensures Equal(a, b) <==> Meaning(a) == Meaning(b) && NoNaN(a)
    decreases a
  {
    match (a, b)
    case (VArr(x), VArr(y)) =>
      if |x| == |y| {
        forall i | 0 <= i < |x| ensures Equal(x[i], y[i]) <==> MeaningItems(x)[i] == MeaningItems(y)[i] && NoNaN(x[i]) {
          EqualIffSameMeaning(x[i], y[i]);
        }
        assert (forall i | 0 <= i < |x| :: MeaningItems(x)[i] == MeaningItems(y)[i])
            <==> MeaningItems(x) == MeaningItems(y);
      }
    case (VObj(x), VObj(y)) =>
      forall i, j | 0 <= i < |x| && 0 <= j < |y|
        ensures Equal(x[i].value, y[j].value) <==> SameNumbers(x[i].value, y[j].value)
      {
        EqualIffSameMeaning(x[i].value, y[j].value);
      }
      EqualObjects(x, y);
    case _ =>
  }

  lemma {:induction false} EqualObjects(x: seq<Entry>, y: seq<Entry>)
    requires DistinctKeys(x) && DistinctKeys(y)
    requires forall i, j | 0 <= i < |x| && 0 <= j < |y| ::
               Equal(x[i].value, y[j].value) <==> SameNumbers(x[i].value, y[j].value)
    ensures Equal(VObj(x), VObj(y)) <==> MeaningEntries(x) == MeaningEntries(y) && NoNaN(VObj(x))
  {
    hide AgreesAt, FoundEqual, MeaningEntries, SameNumbers;
    forall i | 0 <= i < |x| ensures FoundEqual(x[i], y) <==> AgreesAt(x, y, x[i].key) && NoNaN(x[i].value) {
      FoundEqualMeans(x, y, i);
    }
    AgreeingTables(x, y);
  }

  lemma {:induction false} AgreeingTables(x: seq<Entry>, y: seq<Entry>)
    requires DistinctKeys(x) && DistinctKeys(y)
    ensures (|x| == |y| && forall i | 0 <= i < |x| :: AgreesAt(x, y, x[i].key))
            <==> MeaningEntries(x) == MeaningEntries(y)
  {
    DistinctKeysCount(x);
    DistinctKeysCount(y);
    var keys := KeyList(x);
    MapsAgree(keys, MeaningEntries(x), MeaningEntries(y));
  }

  lemma KeyList(x: seq<Entry>) returns (keys: seq<string>)
    ensures |keys| == |x|
    ensures forall i | 0 <= i < |x| :: keys[i] == x[i].key && x[i].key in MeaningEntries(x)
    ensures forall k | k in MeaningEntries(x) :: exists i :: 0 <= i < |keys| && keys[i] == k
  {
    keys := seq(|x|, i requires 0 <= i < |x| => x[i].key);
    forall k | k in MeaningEntries(x) ensures exists i :: 0 <= i < |keys| && keys[i] == k {
      assert k in KeysOf(x);
      var i :| 0 <= i < |x| && x[i].key == k;
      assert keys[i] == k;
    }
  }

  lemma MapsAgree(keys: seq<string>, m: map<string, Json>, n: map<string, Json>)
    requires forall i | 0 <= i < |keys| :: keys[i] in m
    requires forall k | k in m :: exists i :: 0 <= i < |keys| && keys[i] == k
    ensures (|m.Keys| == |n.Keys| && forall i | 0 <= i < |keys| :: keys[i] in n && m[keys[i]] == n[keys[i]]) <==> m == n
  {
    if |m.Keys| == |n.Keys| && forall i | 0 <= i < |keys| :: keys[i] in n && m[keys[i]] == n[keys[i]] {
      assert forall k | k in m :: k in n && m[k] == n[k];
      SameSizeSubset(m.Keys, n.Keys);
    }
  }

  predicate AgreesAt(x: seq<Entry>, y: seq<Entry>, k: string) {
    k in MeaningEntries(x) && k in MeaningEntries(y) && MeaningEntries(x)[k] == MeaningEntries(y)[k]
  }

  lemma {:induction false} FoundEqualMeans(x: seq<Entry>, y: seq<Entry>, i: nat)
    requires i < |x| && DistinctKeys(x) && DistinctKeys(y)
    requires forall j | 0 <= j < |y| :: Equal(x[i].value, y[j].value) <==> SameNumbers(x[i].value, y[j].value)
    ensures FoundEqual(x[i], y) <==> AgreesAt(x, y, x[i].key) && NoNaN(x[i].value)
  {
    MeaningEntriesLookup(x, i);
    var f := Find(y, x[i].key);
    if f.Some? { MeaningEntriesLookup(y, f.value); }
  }

  lemma SameSizeSubset(a: set<string>, b: set<string>)
    requires a <= b && |a| == |b|
    ensures a == b
  {
    assert b == a + (b - a);
    assert |b - a| == 0;
  }
}
