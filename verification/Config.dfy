/** The configuration store: a tree of maps addressed by dotted keys, which behaves as one flat map
    from key paths to entries. */
module Config {
  import opened Wrappers
  import opened KeyOrder
  import StringUtil

  datatype Error = InvalidKeyPart | NotRegistered | TypeMismatch | Refused
  datatype Result<T> = Ok(value: T) | Throws(error: Error)

  // ---------- entries ----------

  /** A normalised value type. Function and shared-pointer types are not serialisable. */
  datatype Kind = Kind(id: nat, serializable: bool)

  /** std::any holding a value. */
  datatype Any<D> = Any(kind: Kind, data: D)

  /** The function given to Register: its default, and its check, which may throw. An empty function
      object passes every value through; `blank` is the type's own default, which is stored as it is: its type
      is `raw`, which for an enumeration or a C string is not the normalised one. */
  datatype Validator<!D> =
    | Checking(kind: Kind, initial: D, check: D -> Option<D>)
    | Passing(kind: Kind, raw: Kind, blank: D)

  datatype Entry<!D> = Entry(validator: Option<Validator<D>>, value: Option<Any<D>>, nonSerializable: bool,
                             listeners: seq<nat>)

  /** A change callback called with the new value. */
  datatype Call<D> = Call(listener: nat, value: Any<D>)

  /** A node nobody registered: made on the way to a longer key. */
  function Blank<D>(): (e: Entry<D>) {
    Entry(None, None, false, [])
  }

  /** The entry once registered: the default as value; a mark as not serialisable is never taken back. */
  function Registered<D>(e: Entry<D>, v: Validator<D>): (r: Entry<D>) {
    var first := match v
      case Checking(kind, initial, _) => Any(kind, initial)
      case Passing(_, raw, blank) => Any(raw, blank);
    Entry(Some(v), Some(first), e.nonSerializable || !v.kind.serializable, e.listeners)
  }

  /** The validator's answer to a value to be set. */
  function Validated<D>(e: Entry<D>, a: Any<D>): (r: Result<Any<D>>) {
    match e.validator
    case None => Ok(a)
    case Some(Passing(_, _, _)) => Ok(a)
    case Some(Checking(kind, _, check)) =>
      if a.kind != kind then Throws(TypeMismatch) else
        match check(a.data)
        case Some(d) => Ok(Any(kind, d))
        case None => Throws(Refused)
  }

  /** Set on one entry: the new entry and the old value, which is read with the new value's type. */
  function SetEntry<D>(e: Entry<D>, a: Any<D>): (r: Result<(Entry<D>, Option<D>)>) {
    match Validated(e, a)
    case Throws(error) => Throws(error)
    case Ok(final) =>
      if e.value.Some? && !e.nonSerializable then
        if e.value.value.kind != a.kind then Throws(TypeMismatch)
        else Ok((e.(value := Some(final)), Some(e.value.value.data)))
      else Ok((e.(value := Some(final)), None))
  }

  /** The callbacks that follow: every listener in the order of registration, with the stored value. */
  function Calls<D>(e: Entry<D>): (calls: seq<Call<D>>)
    requires e.value.Some?
    ensures |calls| == |e.listeners|
    ensures forall i | 0 <= i < |calls| :: calls[i] == Call(e.listeners[i], e.value.value)
  {
    seq(|e.listeners|, i requires 0 <= i < |e.listeners| => Call(e.listeners[i], e.value.value))
  }

  /** Get on one entry: the value, or the validator's default, read as the type asked for. */
  function GetEntry<D>(e: Entry<D>, kind: Kind): (r: Result<Option<D>>) {
    match e.value
    case Some(a) => if a.kind == kind then Ok(Some(a.data)) else Throws(TypeMismatch)
    case None =>
      match e.validator
      case None => Ok(None)
      case Some(Passing(_, _, _)) => Throws(TypeMismatch)
      case Some(Checking(k, initial, _)) => if k == kind then Ok(Some(initial)) else Throws(TypeMismatch)
  }

  /** Reset on one entry. */
  function ResetEntry<D>(e: Entry<D>): (r: Entry<D>) {
    match e.validator
    case Some(Checking(kind, initial, _)) => e.(value := Some(Any(kind, initial)))
    case _ => e.(value := None)
  }

  // ---------- the tree ----------

  type Path = seq<string>

  datatype Tree<!D> = Tree(nodes: map<string, Node<D>>)
  datatype Node<!D> = Node(entry: Entry<D>, children: Tree<D>)

  function Lookup<D>(t: Tree<D>, p: Path): (r: Option<Entry<D>>)
    decreases |p|
  {
    if p == [] || p[0] !in t.nodes then None
    else if |p| == 1 then Some(t.nodes[p[0]].entry)
    else Lookup(t.nodes[p[0]].children, p[1..])
  }

  function Child<D>(t: Tree<D>, k: string): (n: Node<D>) {
    if k in t.nodes then t.nodes[k] else Node(Blank(), Tree(map[]))
  }

  /** The tree with entry e at p; nodes missing on the way are made. */
  function Store<D>(t: Tree<D>, p: Path, e: Entry<D>): (r: Tree<D>)
    requires p != []
    decreases |p|
  {
    var n := Child(t, p[0]);
    if |p| == 1 then Tree(t.nodes[p[0] := n.(entry := e)])
    else Tree(t.nodes[p[0] := n.(children := Store(n.children, p[1..], e))])
  }

  predicate IsPrefix(p: Path, q: Path) {
    |p| <= |q| && p == q[..|p|]
  }

  // ---------- the flat map ----------

  type Flat<!D> = map<Path, Entry<D>>

  function At<D>(m: Flat<D>, p: Path): (r: Option<Entry<D>>) {
    if p in m then Some(m[p]) else None
  }

  /** The tree holds what the flat map holds. */
  ghost predicate Agrees<D>(t: Tree<D>, m: Flat<D>) {
    forall p :: Lookup(t, p) == At(m, p)
  }

  function Prefixes(p: Path): (s: set<Path>)
    ensures forall q :: q in s <==> q != [] && IsPrefix(q, p)
  {
    var s := set i | 1 <= i <= |p| :: p[..i];
    assert forall q | q != [] && IsPrefix(q, p) :: q == p[..|q|];
    s
  }

  function Put<D>(m: Flat<D>, p: Path, e: Entry<D>): (r: Flat<D>)
    requires p != []
  {
    map q | q in m.Keys + Prefixes(p) :: if q == p then e else if q in m then m[q] else Blank()
  }

  lemma {:induction false} StoreLookup<D>(t: Tree<D>, p: Path, e: Entry<D>, q: Path)
    requires p != []
    ensures Lookup(Store(t, p, e), q) ==
            if q == p then Some(e)
            else if Lookup(t, q).Some? then Lookup(t, q)
            else if q != [] && IsPrefix(q, p) then Some(Blank()) else None
    decreases |p|
  {
    if q != [] && q[0] == p[0] {
      var child := Child(t, p[0]).children;
      if |p| > 1 {
        StoreLookup(child, p[1..], e, q[1..]);
      }
      assert |q| == 1 && |p| == 1 ==> q == p;
    } else if q != [] {
      assert !IsPrefix(q, p);
    }
  }

  /** Storing in the tree is putting in the flat map. */
  lemma {:induction false} StoreAgrees<D>(t: Tree<D>, m: Flat<D>, p: Path, e: Entry<D>)
    requires Agrees(t, m) && p != []
    ensures Agrees(Store(t, p, e), Put(m, p, e))
  {
    hide Lookup, Store, IsPrefix;
    forall q ensures Lookup(Store(t, p, e), q) == At(Put(m, p, e), q) {
      StoreLookup(t, p, e, q);
      assert Lookup(t, q) == At(m, q);
      PrefixSelf(p);
    }
  }

  lemma PrefixSelf(p: Path)
    ensures IsPrefix(p, p)
  {
  }

  // ---------- the operations on the flat map ----------

  function Parts(key: string): (p: Path)
    ensures p != []
  {
    StringUtil.Split(key, ".")
  }

  predicate ValidPart(part: string) {
    part != "" && ' ' !in part && !(|part| >= 2 && part[..2] == "__")
  }

  predicate ValidPath(p: Path) {
    forall i | 0 <= i < |p| :: ValidPart(p[i])
  }

  datatype Op<!D> =
    | Register(key: string, validator: Validator<D>)
    | Set(key: string, value: Any<D>)
    | Notify(key: string, listener: nat)
    | Reset

  function RegisterFlat<D>(m: Flat<D>, key: string, v: Validator<D>): (r: Result<Flat<D>>) {
    var p := Parts(key);
    if !ValidPath(p) then Throws(InvalidKeyPart)
    else Ok(Put(m, p, Registered(if p in m then m[p] else Blank(), v)))
  }

  function SetFlat<D>(m: Flat<D>, key: string, a: Any<D>): (r: Result<(Flat<D>, Option<D>)>) {
    var p := Parts(key);
    if p !in m then Throws(NotRegistered) else
      match SetEntry(m[p], a)
      case Throws(error) => Throws(error)
      case Ok(done) => Ok((m[p := done.0], done.1))
  }

  function NotifyFlat<D>(m: Flat<D>, key: string, listener: nat): (r: Result<Flat<D>>) {
    var p := Parts(key);
    if p !in m then Throws(NotRegistered) else Ok(m[p := m[p].(listeners := m[p].listeners + [listener])])
  }

  function GetFlat<D>(m: Flat<D>, key: string, kind: Kind): (r: Result<Option<D>>) {
    if Parts(key) in m then GetEntry(m[Parts(key)], kind) else Ok(None)
  }

  function ResetFlat<D>(m: Flat<D>): (r: Flat<D>) {
    map p | p in m :: ResetEntry(m[p])
  }

  /** One call; a call that throws changes nothing. */
  function Step<D>(m: Flat<D>, op: Op<D>): (r: Flat<D>) {
    match op
    case Register(key, v) =>
      var s := RegisterFlat(m, key, v);
      if s.Ok? then s.value else m
    case Set(key, a) =>
      var s := SetFlat(m, key, a);
      if s.Ok? then s.value.0 else m
    case Notify(key, listener) =>
      var s := NotifyFlat(m, key, listener);
      if s.Ok? then s.value else m
    case Reset => ResetFlat(m)
  }

  function Run<D>(ops: seq<Op<D>>): (m: Flat<D>) {
    if ops == [] then map[] else Step(Run(ops[..|ops| - 1]), ops[|ops| - 1])
  }

  // ---------- the object ----------

  class Config<D> {
    var property: Tree<D>

    /** Every callback called so far. */
    var calls: seq<Call<D>>

    /** The entries as one map. */
    ghost var flat: Flat<D>

    ghost predicate Valid()
      reads this
    {
      Agrees(property, flat) && forall p | p in flat :: ValidPath(p) && NoDots(p)
    }

    constructor ()
      ensures Valid() && flat == map[] && calls == []
    {
      property, calls, flat := Tree(map[]), [], map[];
    }

    method Register(keys: string, validator: Validator<D>) returns (r: Result<()>)
      requires Valid()
      modifies this
      ensures Valid()
      ensures calls == old(calls)
      ensures match RegisterFlat(old(flat), keys, validator)
              case Ok(m) => r == Ok(()) && flat == m
              case Throws(e) => r == Throws(e) && flat == old(flat) && property == old(property)
    {
      hide Store, Lookup, Agrees, ValidPart, Registered, Put;
      var parts := Parts(keys);
      for i := 0 to |parts|
        invariant forall k | 0 <= k < i :: ValidPart(parts[k])
      {
        if !ValidPart(parts[i]) { return Throws(InvalidKeyPart); }
      }
      var present := Find(parts);
      var entry := Registered(if present.Some? then present.value else Blank(), validator);
      StoreAgrees(property, flat, parts, entry);
      PartsNoDots(keys);
      PutPaths(flat, parts, entry);
      property := Store(property, parts, entry);
      flat := Put(flat, parts, entry);
      return Ok(());
    }

    /** The walk down the maps, one key part at a time. */
    method Find(parts: Path) returns (r: Option<Entry<D>>)
      requires Valid() && parts != []
      ensures r == At(flat, parts)
    {
      hide ValidPath, NoDots;
      var current := property;
      assert parts[0..] == parts;
      for i := 0 to |parts|
        invariant i < |parts|
        invariant Lookup(current, parts[i..]) == Lookup(property, parts)
      {
        var key := parts[i];
        if key !in current.nodes { return None; }
        if i == |parts| - 1 { return Some(current.nodes[key].entry); }
        assert parts[i..][1..] == parts[i + 1..];
        current := current.nodes[key].children;
      }
    }

    method Set(key: string, value: Any<D>) returns (r: Result<Option<D>>)
      requires Valid()
      modifies this
      ensures Valid()
      ensures match SetFlat(old(flat), key, value)
              case Ok(done) =>
                && r == Ok(done.1) && flat == done.0
                && flat[Parts(key)].value.Some? && calls == old(calls) + Calls(flat[Parts(key)])
              case Throws(e) => r == Throws(e) && flat == old(flat) && property == old(property) && calls == old(calls)
    {
      hide Store, Lookup, Agrees, ValidPath, NoDots, SetEntry, Put;
      var parts := Parts(key);
      var present := Find(parts);
      if present.None? { return Throws(NotRegistered); }
      var done := SetEntry(present.value, value);
      if done.Throws? { return Throws(done.error); }
      var entry := done.value.0;
      StoredHasValue(present.value, value);
      Update(parts, entry);
      for i := 0 to |entry.listeners|
        invariant Valid() && flat == old(flat)[parts := entry]
        invariant calls == old(calls) + Calls(entry)[..i]
      {
        calls := calls + [Call(entry.listeners[i], entry.value.value)];
      }
      return Ok(done.value.1);
    }

    /** The entry of a key that is there is replaced. */
    method Update(parts: Path, entry: Entry<D>)
      requires Valid() && parts != [] && parts in flat
      modifies this
      ensures Valid() && flat == old(flat)[parts := entry] && calls == old(calls)
    {
      hide Store, Lookup, Agrees, ValidPath, NoDots, Put;
      StoreAgrees(property, flat, parts, entry);
      PutPresent(property, flat, parts, entry);
      property := Store(property, parts, entry);
      flat := flat[parts := entry];
    }

    method NotifyChange(key: string, listener: nat) returns (r: Result<()>)
      requires Valid()
      modifies this
      ensures Valid() && calls == old(calls)
      ensures match NotifyFlat(old(flat), key, listener)
              case Ok(m) => r == Ok(()) && flat == m
              case Throws(e) => r == Throws(e) && flat == old(flat) && property == old(property)
    {
      hide Agrees, ValidPath, NoDots;
      var parts := Parts(key);
      var present := Find(parts);
      if present.None? { return Throws(NotRegistered); }
      Update(parts, present.value.(listeners := present.value.listeners + [listener]));
      return Ok(());
    }

    method Get(key: string, kind: Kind) returns (r: Result<Option<D>>)
      requires Valid()
      ensures r == GetFlat(flat, key, kind)
    {
      hide Valid, GetEntry;
      var present := Find(Parts(key));
      if present.None? { return Ok(None); }
      return GetEntry(present.value, kind);
    }

    method Has(key: string) returns (r: bool)
      requires Valid()
      ensures r <==> Parts(key) in flat
    {
      hide Valid;
      var present := Find(Parts(key));
      return present.Some?;
    }

    method Reset()
      requires Valid()
      modifies this
      ensures Valid() && flat == ResetFlat(old(flat)) && calls == old(calls)
    {
      hide ValidPath, NoDots, ResetEntry, Lookup;
      property := ToDefault(property);
      flat := ResetFlat(flat);
    }

    /** Every key once, parents before children and siblings in order. */
    method GetAllKeys() returns (keys: seq<string>, ghost paths: seq<Path>)
      requires Valid()
      ensures Ascending(paths) && (forall p :: p in paths <==> p in flat)
      ensures keys == Dotted([], paths)
    {
      keys, paths := CollectKeys(property, "", []);
    }
  }

  // ---------- listing the keys ----------

  /** Key order applied part by part: a path comes before its extensions. */
  predicate PathLess(p: Path, q: Path) {
    q != [] && (p == [] || KeyLess(p[0], q[0]) || (p[0] == q[0] && PathLess(p[1..], q[1..])))
  }

  predicate Ascending(paths: seq<Path>) {
    forall i, j | 0 <= i < j < |paths| :: PathLess(paths[i], paths[j])
  }

  /** The dotted keys of paths below a common prefix. */
  function Dotted(prefix: Path, paths: seq<Path>): (keys: seq<string>)
    ensures |keys| == |paths|
  {
    seq(|paths|, i requires 0 <= i < |paths| => StringUtil.Join(prefix + paths[i], "."))
  }

  /** The paths of one node: itself, then those below it. */
  function Family(k: string, below: seq<Path>): (paths: seq<Path>)
    ensures |paths| == |below| + 1
  {
    [[k]] + seq(|below|, i requires 0 <= i < |below| => [k] + below[i])
  }

  lemma {:induction false} FamilyAscending(k: string, below: seq<Path>)
    requires Ascending(below) && [] !in below
    ensures Ascending(Family(k, below))
  {
    var f := Family(k, below);
    forall i, j | 0 <= i < j < |f| ensures PathLess(f[i], f[j]) {
      assert f[j] == [k] + below[j - 1] && f[j][1..] == below[j - 1];
      if i == 0 { assert below[j - 1] != []; } else { assert f[i] == [k] + below[i - 1] && f[i][1..] == below[i - 1]; }
    }
  }

  lemma {:induction false} FamilyMember(k: string, below: seq<Path>, p: Path)
    ensures p in Family(k, below) <==> p != [] && p[0] == k && (|p| == 1 || p[1..] in below)
  {
    var f := Family(k, below);
    if p in f {
      var i :| 0 <= i < |f| && f[i] == p;
      if i > 0 { assert p == [k] + below[i - 1] && p[1..] == below[i - 1]; }
    }
    if p != [] && p[0] == k {
      assert p == [k] + p[1..];
      if |p| == 1 { assert f[0] == p; }
      if p[1..] in below {
        var i :| 0 <= i < |below| && below[i] == p[1..];
        assert f[i + 1] == p;
      }
    }
  }

  lemma {:induction false} DottedFamily(prefix: Path, k: string, below: seq<Path>)
    ensures Dotted(prefix, Family(k, below)) == [StringUtil.Join(prefix + [k], ".")] + Dotted(prefix + [k], below)
  {
    hide StringUtil.Join;
    var f := Family(k, below);
    forall i | 0 <= i < |below| ensures prefix + f[i + 1] == (prefix + [k]) + below[i] { }
  }

  lemma DottedConcat(prefix: Path, a: seq<Path>, b: seq<Path>)
    ensures Dotted(prefix, a + b) == Dotted(prefix, a) + Dotted(prefix, b)
  {
    hide StringUtil.Join;
  }

  /** The visit of one map, in key order, each node before its children. */
  method CollectKeys<D>(t: Tree<D>, prefix: string, ghost path: Path)
    returns (keys: seq<string>, ghost paths: seq<Path>)
    requires prefix == StringUtil.Join(path, ".") && (prefix == "" <==> path == [])
    requires forall p | Lookup(t, p).Some? :: ValidPath(p)
    ensures Ascending(paths) && (forall p :: p in paths <==> Lookup(t, p).Some?)
    ensures keys == Dotted(path, paths)
    decreases t
  {
    hide ValidPath, Dotted, StringUtil.Join, KeyLess, Family, PathLess;
    keys, paths := [], [];
    NothingDotted(path);
    var left := t.nodes.Keys;
    while left != {}
      invariant left <= t.nodes.Keys
      invariant forall a, b | a in t.nodes && a !in left && b in left :: KeyLess(a, b)
      invariant Ascending(paths)
      invariant forall p :: p in paths <==> Lookup(t, p).Some? && p[0] !in left
      invariant keys == Dotted(path, paths)
    {
      ghost var least := LeastKey(left);
      var k :| k in left && forall j | j in left && j != k :: KeyLess(k, j);
      var node := t.nodes[k];
      var full := if prefix == "" then k else prefix + "." + k;
      FullKey(path, prefix, k);
      ChildPaths(t, k);
      var below, belowPaths := CollectKeys(node.children, full, path + [k]);
      keys := keys + [full] + below;
      NextFamily(t, left, k, paths, belowPaths);
      DottedFamily(path, k, belowPaths);
      DottedConcat(path, paths, Family(k, belowPaths));
      paths := paths + Family(k, belowPaths);
      left := left - {k};
    }
  }


  lemma NothingDotted(path: Path)
    ensures Dotted(path, []) == []
  {
  }

  // ---------- resetting, node by node ----------

  method ToDefault<D>(t: Tree<D>) returns (r: Tree<D>)
    ensures r.nodes.Keys == t.nodes.Keys
    ensures forall p :: Lookup(r, p) == Resetting(Lookup(t, p))
    decreases t
  {
    hide ResetEntry;
    r := Tree(map[]);
    var left := t.nodes.Keys;
    while left != {}
      invariant left <= t.nodes.Keys && r.nodes.Keys == t.nodes.Keys - left
      invariant forall k | k in r.nodes :: ResetNode(t.nodes[k], r.nodes[k])
    {
      var k :| k in left;
      var node := t.nodes[k];
      var children := ToDefault(node.children);
      r := Tree(r.nodes[k := Node(ResetEntry(node.entry), children)]);
      left := left - {k};
    }
    forall p ensures Lookup(r, p) == Resetting(Lookup(t, p)) {
      if p != [] && p[0] in t.nodes { assert ResetNode(t.nodes[p[0]], r.nodes[p[0]]); }
    }
  }

  function Resetting<D>(e: Option<Entry<D>>): (r: Option<Entry<D>>) {
    match e case Some(x) => Some(ResetEntry(x)) case None => None
  }

  ghost predicate ResetNode<D>(n: Node<D>, r: Node<D>) {
    r.entry == ResetEntry(n.entry) && forall p :: Lookup(r.children, p) == Resetting(Lookup(n.children, p))
  }

  // ---------- what the object relies on ----------

  lemma StoredHasValue<D>(e: Entry<D>, a: Any<D>)
    ensures SetEntry(e, a).Ok? ==> SetEntry(e, a).value.0.value.Some?
  {
  }

  predicate NoDots(p: Path) {
    forall i | 0 <= i < |p| :: '.' !in p[i]
  }

  /** A part holds no delimiter. */
  lemma {:induction false} SplitNoDots(s: string)
    ensures NoDots(StringUtil.Split(s, "."))
    decreases |s|
  {
    hide StringUtil.Find;
    match StringUtil.Find(s, ".", 0)
    case None => NoDotBefore(s, |s|);
      assert s[..|s|] == s;
    case Some(end) =>
      NoDotBefore(s, end);
      SplitNoDots(s[end + 1..]);
  }

  lemma NoDotBefore(s: string, end: nat)
    requires end <= |s| && forall i | 0 <= i < end :: !StringUtil.Occurs(s, ".", i)
    ensures '.' !in s[..end]
  {
    forall i | 0 <= i < end ensures s[i] != '.' {
      assert !StringUtil.Occurs(s, ".", i);
      assert s[i..i + 1] == [s[i]];
    }
  }

  lemma PartsNoDots(key: string)
    ensures NoDots(Parts(key))
  {
    SplitNoDots(key);
  }

  lemma {:induction false} PutPaths<D>(m: Flat<D>, p: Path, e: Entry<D>)
    requires p != [] && ValidPath(p) && NoDots(p) && forall q | q in m :: ValidPath(q) && NoDots(q)
    ensures forall q | q in Put(m, p, e) :: ValidPath(q) && NoDots(q)
  {
    hide ValidPart;
  }

  /** Over a tree, the prefixes of a path that is there are there. */
  lemma {:induction false} PrefixPresent<D>(t: Tree<D>, p: Path, q: Path)
    requires Lookup(t, p).Some? && q != [] && IsPrefix(q, p)
    ensures Lookup(t, q).Some?
    decreases |p|
  {
    if |q| > 1 {
      PrefixPresent(t.nodes[p[0]].children, p[1..], q[1..]);
    }
  }

  lemma {:induction false} PutPresent<D>(t: Tree<D>, m: Flat<D>, p: Path, e: Entry<D>)
    requires Agrees(t, m) && p in m && p != []
    ensures Put(m, p, e) == m[p := e]
  {
    hide Lookup, IsPrefix;
    forall q | q in Prefixes(p) ensures q in m {
      PrefixPresent(t, p, q);
    }
  }

  lemma {:induction false} FullKey(path: Path, prefix: string, k: string)
    requires prefix == StringUtil.Join(path, ".") && (prefix == "" <==> path == [])
    ensures StringUtil.Join(path + [k], ".") == if prefix == "" then k else prefix + "." + k
  {
    if path != [] {
      StringUtil.JoinSnoc(path, k, ".");
      assert prefix + ("." + k) == prefix + "." + k;
    }
  }

  lemma {:induction false} ChildPaths<D>(t: Tree<D>, k: string)
    requires k in t.nodes && forall p | Lookup(t, p).Some? :: ValidPath(p)
    ensures k != "" && forall p | Lookup(t.nodes[k].children, p).Some? :: ValidPath(p)
  {
    assert Lookup(t, [k]).Some?;
    assert ValidPart([k][0]);
    forall p | Lookup(t.nodes[k].children, p).Some? ensures ValidPath(p) {
      var q := [k] + p;
      assert q[1..] == p;
      assert Lookup(t, q).Some?;
      forall i | 0 <= i < |p| ensures ValidPart(p[i]) { assert ValidPart(q[i + 1]); }
    }
  }

  lemma {:induction false} NextFamily<D>(t: Tree<D>, left: set<string>, k: string, paths: seq<Path>, below: seq<Path>)
    requires k in left && left <= t.nodes.Keys
    requires forall a, b | a in t.nodes && a !in left && b in left :: KeyLess(a, b)
    requires Ascending(paths) && forall p :: p in paths <==> Lookup(t, p).Some? && p[0] !in left
    requires Ascending(below) && forall p :: p in below <==> Lookup(t.nodes[k].children, p).Some?
    ensures Ascending(paths + Family(k, below))
    ensures forall p :: p in paths + Family(k, below) <==> Lookup(t, p).Some? && p[0] !in left - {k}
  {
    hide KeyLess;
    var f := Family(k, below);
    FamilyAscending(k, below);
    forall p ensures p in f <==> Lookup(t, p).Some? && p[0] == k { FamilyMember(k, below, p); }
    var all := paths + f;
    forall i, j | 0 <= i < j < |all| ensures PathLess(all[i], all[j]) {
      if i < |paths| <= j {
        assert all[i] in paths && all[j] in f;
      } else if j < |paths| {
        assert all[i] == paths[i] && all[j] == paths[j];
      } else {
        assert all[i] == f[i - |paths|] && all[j] == f[j - |paths|];
      }
    }
  }
}
