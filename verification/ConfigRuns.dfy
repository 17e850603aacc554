/** What holds of the configuration store over every run of its operations. */
module ConfigRuns {
  import opened Wrappers
  import opened C = Config
  import opened KeyOrder
  import StringUtil

  /** The callbacks an operation calls. */
  function CallsOf<D>(m: Flat<D>, op: Op<D>): (calls: seq<Call<D>>) {
    if op.Set? && SetFlat(m, op.key, op.value).Ok? then
      StoredHasValue(m[Parts(op.key)], op.value);
      Calls(SetFlat(m, op.key, op.value).value.0[Parts(op.key)])
    else []
  }

  function Called<D>(ops: seq<Op<D>>): (calls: seq<Call<D>>) {
    if ops == [] then []
    else Called(ops[..|ops| - 1]) + CallsOf(Run(ops[..|ops| - 1]), ops[|ops| - 1])
  }

  /** The object, driven through any calls, holds what the flat map holds and has called the callbacks of
      the successful Set calls in order. */
  method Drive<D>(ops: seq<Op<D>>) returns (c: C.Config<D>)
    ensures c.Valid() && c.flat == Run(ops) && c.calls == Called(ops)
  {
    hide RegisterFlat, SetFlat, ResetFlat, NotifyFlat, Calls;
    c := new C.Config();
    for i := 0 to |ops|
      invariant c.Valid() && c.flat == Run(ops[..i]) && c.calls == Called(ops[..i]) && fresh(c)
    {
      assert ops[..i + 1][..i] == ops[..i];
      match ops[i]
      case Register(key, v) => var _ := c.Register(key, v);
      case Set(key, a) => var _ := c.Set(key, a);
      case Notify(key, listener) => var _ := c.NotifyChange(key, listener);
      case Reset => c.Reset();
    }
    assert ops[..|ops|] == ops;
  }

  // ---------- which keys exist ----------

  predicate RegistersAt<D>(op: Op<D>, p: Path) {
    op.Register? && ValidPath(Parts(op.key)) && IsPrefix(p, Parts(op.key))
  }

  /** Some accepted Register call named the path or an extension of it. */
  predicate WasRegistered<D>(ops: seq<Op<D>>, p: Path) {
    exists i | 0 <= i < |ops| :: RegistersAt(ops[i], p)
  }

  /** After any run the keys are exactly the non-empty prefixes of the registered paths. */
  lemma {:induction false} KeysArePrefixes<D>(ops: seq<Op<D>>, p: Path)
    ensures p in Run(ops) <==> p != [] && WasRegistered(ops, p)
  {
    hide Registered, SetEntry, ResetEntry, ValidPath, IsPrefix;
    if ops != [] {
      KeysArePrefixes(ops[..|ops| - 1], p);
    }
  }

  /** Has, on a dotted key: exactly the non-empty prefixes of registered keys. */
  method HasAfter<D>(ops: seq<Op<D>>, key: string) returns (r: bool)
    ensures r <==> WasRegistered(ops, Parts(key))
  {
    hide WasRegistered;
    var c := Drive(ops);
    KeysArePrefixes(ops, Parts(key));
    r := c.Has(key);
  }

  /** A key part may begin at i: something is there, and it is no dot and no pair of underscores. */
  predicate PartMayBegin(key: string, i: nat) {
    i < |key| && key[i] != '.' && !(i + 1 < |key| && key[i] == '_' && key[i + 1] == '_')
  }

  /** No space anywhere, and a part may begin at the start and after every dot. */
  predicate AcceptableKey(key: string) {
    ' ' !in key && forall i | 0 <= i <= |key| && (i == 0 || key[i - 1] == '.') :: PartMayBegin(key, i)
  }

  lemma {:induction false} OnePart(key: string)
    requires '.' !in key
    ensures ValidPart(key) <==> AcceptableKey(key)
  {
    if ValidPart(key) {
      forall i | 0 <= i <= |key| && (i == 0 || key[i - 1] == '.') ensures PartMayBegin(key, i) {
        assert |key| >= 2 ==> key[..2] == [key[0], key[1]];
      }
    }
    if AcceptableKey(key) {
      assert PartMayBegin(key, 0);
      assert |key| >= 2 ==> key[..2] == [key[0], key[1]];
    }
  }

  lemma {:induction false} FirstPart(head: string, tail: string)
    requires '.' !in head
    ensures AcceptableKey(head + "." + tail) <==> AcceptableKey(head) && AcceptableKey(tail)
  {
    var key, n := head + "." + tail, |head| + 1;
    assert forall i | 0 <= i < |head| :: key[i] == head[i];
    assert forall i | 0 <= i < |tail| :: key[n + i] == tail[i];
    assert ' ' in key <==> ' ' in head || ' ' in tail;
    forall i | 0 <= i <= |tail| ensures PartMayBegin(key, n + i) <==> PartMayBegin(tail, i) { }
    assert PartMayBegin(key, 0) <==> PartMayBegin(head, 0);
    if AcceptableKey(key) {
      forall i | 0 <= i <= |tail| && (i == 0 || tail[i - 1] == '.') ensures PartMayBegin(tail, i) {
        assert i > 0 ==> key[n + i - 1] == tail[i - 1];
        assert PartMayBegin(key, n + i);
      }
      assert AcceptableKey(head) by { OnlyAtStart(head); }
    }
    if AcceptableKey(head) && AcceptableKey(tail) {
      forall i | 0 <= i <= |key| && (i == 0 || key[i - 1] == '.') ensures PartMayBegin(key, i) {
        if i >= n {
          assert i > n ==> key[i - 1] == tail[i - n - 1];
          assert PartMayBegin(tail, i - n);
        }
      }
    }
  }

  lemma OnlyAtStart(head: string)
    requires '.' !in head
    ensures AcceptableKey(head) <==> ' ' !in head && PartMayBegin(head, 0)
  {
  }

  lemma {:induction false} SplitAccepts(key: string)
    ensures ValidPath(StringUtil.Split(key, ".")) <==> AcceptableKey(key)
    decreases |key|
  {
    hide StringUtil.Find, ValidPart, AcceptableKey;
    match StringUtil.Find(key, ".", 0)
    case None =>
      NoDotBefore(key, |key|);
      assert key[..|key|] == key;
      OnePart(key);
      assert StringUtil.Split(key, ".") == [key];
      PathOfOne(key);
    case Some(end) =>
      NoDotBefore(key, end);
      var head, tail := key[..end], key[end + 1..];
      StringUtil.CutAt(key, ".", end);
      SplitAccepts(tail);
      OnePart(head);
      FirstPart(head, tail);
      PathOfMore(head, StringUtil.Split(tail, "."));
  }

  lemma PathOfOne(part: string)
    ensures ValidPath([part]) <==> ValidPart(part)
  {
    hide ValidPart;
    assert [part][0] == part;
  }

  lemma PathOfMore(part: string, rest: Path)
    ensures ValidPath([part] + rest) <==> ValidPart(part) && ValidPath(rest)
  {
    hide ValidPart;
    var all := [part] + rest;
    assert all[0] == part && forall i | 0 <= i < |rest| :: all[i + 1] == rest[i];
  }

  /** Register accepts a key exactly when it has no space, does not begin or end with a dot, has no two dots
      in a row, and has no two underscores at its start or after a dot. */
  lemma {:induction false} RegisterAcceptsExactly<D>(m: Flat<D>, key: string, v: Validator<D>)
    ensures RegisterFlat(m, key, v).Ok? <==> AcceptableKey(key)
  {
    hide ValidPath, AcceptableKey;
    SplitAccepts(key);
  }

  // ---------- setting ----------

  lemma {:induction false} PartsInjective(key: string, other: string)
    requires Parts(key) == Parts(other)
    ensures key == other
  {
    StringUtil.SplitIsLeftmost(key, ".");
    StringUtil.SplitIsLeftmost(other, ".");
  }

  /** A value of a checked entry always has the checker's type. */
  predicate WellTyped<D>(e: Entry<D>) {
    && (e.validator.Some? && e.validator.value.Checking? ==> e.value.Some? && e.value.value.kind == e.validator.value.kind)
    && (e.validator.Some? && !e.validator.value.kind.serializable ==> e.nonSerializable)
  }

  lemma {:induction false} StepWellTyped<D>(m: Flat<D>, op: Op<D>)
    requires forall p | p in m :: WellTyped(m[p])
    ensures forall p | p in Step(m, op) :: WellTyped(Step(m, op)[p])
  {
    hide Parts, ValidPath, IsPrefix;
  }

  lemma {:induction false} RunWellTyped<D>(ops: seq<Op<D>>)
    ensures forall p | p in Run(ops) :: WellTyped(Run(ops)[p])
  {
    hide Step, WellTyped;
    if ops != [] {
      RunWellTyped(ops[..|ops| - 1]);
      StepWellTyped(Run(ops[..|ops| - 1]), ops[|ops| - 1]);
    }
  }

  /** After any run, setting a checked key succeeds exactly when the type is its own and the check accepts. */
  lemma {:induction false} SetSucceedsExactly<D>(ops: seq<Op<D>>, key: string, a: Any<D>)
    requires Parts(key) in Run(ops) && Run(ops)[Parts(key)].validator.Some?
    requires Run(ops)[Parts(key)].validator.value.Checking?
    ensures var v := Run(ops)[Parts(key)].validator.value;
            SetFlat(Run(ops), key, a).Ok? <==> a.kind == v.kind && v.check(a.data).Some?
  {
    hide Parts, Run;
    RunWellTyped(ops);
    assert WellTyped(Run(ops)[Parts(key)]);
  }

  /** Get after Set yields the validated value; the old value comes back from Set; nothing else moves. */
  lemma {:induction false} GetAfterSet<D>(ops: seq<Op<D>>, key: string, a: Any<D>)
    requires SetFlat(Run(ops), key, a).Ok?
    ensures var m := Run(ops);
            var (next, previous) := SetFlat(m, key, a).value;
            var e := m[Parts(key)];
            && GetFlat(next, key, a.kind) == (match e.validator
                                              case Some(Checking(_, _, check)) => Ok(check(a.data))
                                              case _ => Ok(Some(a.data)))
            && (e.value.Some? && !e.nonSerializable ==> GetFlat(m, key, a.kind) == Ok(previous) && previous.Some?)
            && next.Keys == m.Keys && Run(ops + [Set(key, a)]) == next
            && forall other, kind | other != key :: GetFlat(next, other, kind) == GetFlat(m, other, kind)
  {
    hide Parts;
    assert (ops + [Set(key, a)])[..|ops|] == ops;
    assert Run(ops + [Set(key, a)]) == Step(Run(ops), Set(key, a));
    hide Run;
    var m := Run(ops);
    var next := SetFlat(m, key, a).value.0;
    forall other, kind | other != key ensures GetFlat(next, other, kind) == GetFlat(m, other, kind) {
      if Parts(other) == Parts(key) { PartsInjective(key, other); }
    }
  }

  /** A key without a check takes every value, as long as the old value, if it is to be returned, has the
      type of the new one; the old value is returned unless there is none or a type of the key was not
      serialisable. */
  lemma {:induction false} SetUncheckedExactly<D>(ops: seq<Op<D>>, key: string, a: Any<D>)
    requires Parts(key) in Run(ops)
    requires var v := Run(ops)[Parts(key)].validator; v.Some? ==> v.value.Passing?
    ensures var e := Run(ops)[Parts(key)];
            var r := SetFlat(Run(ops), key, a);
            && (r.Ok? <==> e.value.None? || e.nonSerializable || e.value.value.kind == a.kind)
            && (r.Ok? ==> r.value.1.Some? == (e.value.Some? && !e.nonSerializable))
            && (r.Ok? ==> r.value.0[Parts(key)] == e.(value := Some(a)))
  {
    hide Parts, Run;
  }

  predicate MarksKey<D>(op: Op<D>, key: string) {
    op.Register? && op.key == key && AcceptableKey(key) && !op.validator.kind.serializable
  }

  /** A key never returns old values again once it was registered with a type that is not serialisable. */
  lemma {:induction false} NonSerializableExactly<D>(ops: seq<Op<D>>, key: string)
    ensures Parts(key) in Run(ops) && Run(ops)[Parts(key)].nonSerializable
            <==> exists i | 0 <= i < |ops| :: MarksKey(ops[i], key)
  {
    hide Parts, Step, MarksKey;
    if ops != [] {
      var front, last := ops[..|ops| - 1], ops[|ops| - 1];
      NonSerializableExactly(front, key);
      StepMarks(Run(front), last, key);
      assert forall i | 0 <= i < |front| :: front[i] == ops[i];
    }
  }

  lemma {:induction false} StepMarks<D>(m: Flat<D>, op: Op<D>, key: string)
    ensures var p, n := Parts(key), Step(m, op);
            (p in n && n[p].nonSerializable) <==> ((p in m && m[p].nonSerializable) || MarksKey(op, key))
  {
    hide Parts, ValidPath, IsPrefix, AcceptableKey;
    if op.Register? {
      RegisterAcceptsExactly(m, op.key, op.validator);
      if Parts(op.key) == Parts(key) { PartsInjective(op.key, key); }
      PrefixSelf(Parts(key));
    }
  }

  /** Nobody registered the key itself. */
  predicate NeverRegistered<D>(ops: seq<Op<D>>, key: string) {
    forall i | 0 <= i < |ops| :: !(ops[i].Register? && ops[i].key == key)
  }

  predicate NeverSet<D>(ops: seq<Op<D>>, key: string) {
    forall i | 0 <= i < |ops| :: !(ops[i].Set? && ops[i].key == key)
  }

  lemma {:induction false} StepUnregistered<D>(m: Flat<D>, op: Op<D>, key: string)
    requires Parts(key) in m ==> m[Parts(key)].validator.None?
    requires !(op.Register? && op.key == key)
    ensures Parts(key) in Step(m, op) ==> Step(m, op)[Parts(key)].validator.None?
    ensures (Parts(key) in m ==> m[Parts(key)].value.None?) && !(op.Set? && op.key == key)
            ==> (Parts(key) in Step(m, op) ==> Step(m, op)[Parts(key)].value.None?)
  {
    hide Parts, ValidPath, IsPrefix, Registered;
    if op.Register? && Parts(op.key) == Parts(key) { PartsInjective(op.key, key); }
    if op.Set? && Parts(op.key) == Parts(key) { PartsInjective(op.key, key); }
  }

  lemma {:induction false} UnregisteredEntry<D>(ops: seq<Op<D>>, key: string)
    requires NeverRegistered(ops, key)
    ensures Parts(key) in Run(ops) ==> Run(ops)[Parts(key)].validator.None?
    ensures NeverSet(ops, key) && Parts(key) in Run(ops) ==> Run(ops)[Parts(key)].value.None?
  {
    hide Parts, Step;
    if ops != [] {
      var front, last := ops[..|ops| - 1], ops[|ops| - 1];
      UnregisteredEntry(front, key);
      StepUnregistered(Run(front), last, key);
    }
  }

  /** A key that nobody registered, there or not, has no value until it is set, and none after Reset. */
  lemma {:induction false} UnregisteredHasNoValue<D>(ops: seq<Op<D>>, key: string, kind: Kind)
    requires NeverRegistered(ops, key)
    ensures NeverSet(ops, key) ==> GetFlat(Run(ops), key, kind) == Ok(None)
    ensures GetFlat(Run(ops + [Reset]), key, kind) == Ok(None)
  {
    hide Parts, NeverRegistered, NeverSet;
    UnregisteredEntry(ops, key);
    assert (ops + [Reset])[..|ops|] == ops;
    assert Run(ops + [Reset]) == ResetFlat(Run(ops));
    hide Run;
  }

  /** Set reports an unknown key exactly when it is no prefix of a registered one. */
  lemma {:induction false} UnknownExactly<D>(ops: seq<Op<D>>, key: string, a: Any<D>)
    ensures SetFlat(Run(ops), key, a) == Throws(NotRegistered) <==> !WasRegistered(ops, Parts(key))
  {
    hide WasRegistered, Run, Parts;
    KeysArePrefixes(ops, Parts(key));
  }

  lemma RunOne<D>(op: Op<D>)
    ensures Run([op]) == Step(map[], op)
  {
    var none: seq<Op<D>> := [];
    assert [op][..0] == none && Run(none) == map[];
    assert Run([op]) == Step(Run([op][..|[op]| - 1]), [op][0]);
  }

  /** So a key that only leads to a registered one can be set, although nobody registered it. */
  lemma {:induction false} UnregisteredPrefixIsSettable<D>(key: string, v: Validator<D>, short: string, a: Any<D>)
    requires ValidPath(Parts(key)) && IsPrefix(Parts(short), Parts(key)) && short != key
    ensures SetFlat(Run([Register(key, v)]), short, a).Ok?
  {
    hide Parts, ValidPath, IsPrefix, Registered;
    var m := Run([Register(key, v)]);
    RunOne(Register(key, v));
    if Parts(short) == Parts(key) { PartsInjective(short, key); }
    assert m == Put(map[], Parts(key), Registered(Blank(), v));
    assert m[Parts(short)] == Blank<D>();
  }

  // ---------- resetting ----------

  /** The last accepted Register call for the key. */
  predicate LastRegister<D>(ops: seq<Op<D>>, i: nat, key: string) {
    && i < |ops| && ops[i].Register? && ops[i].key == key && ValidPath(Parts(key))
    && forall j | i < j < |ops| :: !(ops[j].Register? && ops[j].key == key)
  }

  /** No other call touches a key's validator. */
  lemma {:induction false} StepKeepsValidator<D>(m: Flat<D>, op: Op<D>, key: string)
    requires Parts(key) in m && !(op.Register? && op.key == key)
    ensures Parts(key) in Step(m, op) && Step(m, op)[Parts(key)].validator == m[Parts(key)].validator
  {
    hide Parts, ValidPath, IsPrefix, Registered;
    if op.Register? && Parts(op.key) == Parts(key) { PartsInjective(op.key, key); }
  }

  lemma {:induction false} ValidatorIsLastRegistered<D>(ops: seq<Op<D>>, i: nat, key: string)
    requires LastRegister(ops, i, key)
    ensures Parts(key) in Run(ops) && Run(ops)[Parts(key)].validator == Some(ops[i].validator)
    decreases |ops|
  {
    hide Parts, ValidPath, Step;
    var front, last := ops[..|ops| - 1], ops[|ops| - 1];
    if i == |ops| - 1 {
      RegisterBinds(Run(front), last);
    } else {
      assert LastRegister(front, i, key);
      ValidatorIsLastRegistered(front, i, key);
      StepKeepsValidator(Run(front), last, key);
    }
  }

  lemma {:induction false} RegisterBinds<D>(m: Flat<D>, op: Op<D>)
    requires op.Register? && ValidPath(Parts(op.key))
    ensures Parts(op.key) in Step(m, op) && Step(m, op)[Parts(op.key)].validator == Some(op.validator)
  {
    hide Parts, ValidPath, IsPrefix;
    PrefixSelf(Parts(op.key));
  }

  /** Whatever was called since a key was last registered, Reset brings back the default of that Register
      call; after an empty validator there is nothing to read. */
  lemma {:induction false} ResetRestores<D>(ops: seq<Op<D>>, i: nat, key: string)
    requires LastRegister(ops, i, key)
    ensures match ops[i].validator
            case Checking(kind, initial, _) => GetFlat(Run(ops + [Reset]), key, kind) == Ok(Some(initial))
            case Passing(kind, _, _) => GetFlat(Run(ops + [Reset]), key, kind) == Throws(TypeMismatch)
  {
    hide Parts, LastRegister;
    ValidatorIsLastRegistered(ops, i, key);
    assert (ops + [Reset])[..|ops|] == ops;
    assert Run(ops + [Reset]) == ResetFlat(Run(ops));
    hide Run;
  }

  /** Right after Register a key has its default, except that the default of an empty validator cannot be read
      when its type is not a normalised one. */
  lemma {:induction false} GetAfterRegister<D>(ops: seq<Op<D>>, key: string, v: Validator<D>)
    requires ValidPath(Parts(key))
    ensures GetFlat(Run(ops + [Register(key, v)]), key, v.kind)
            == match v
               case Checking(_, initial, _) => Ok(Some(initial))
               case Passing(kind, raw, blank) => if raw == kind then Ok(Some(blank)) else Throws(TypeMismatch)
  {
    hide Parts, ValidPath, IsPrefix;
    assert (ops + [Register(key, v)])[..|ops|] == ops;
    PrefixSelf(Parts(key));
  }

  // ---------- change callbacks ----------

  /** The listeners added for a key, in order, while it was there. */
  function Listening<D>(ops: seq<Op<D>>, key: string): (listeners: seq<nat>) {
    if ops == [] then []
    else
      var front, last := ops[..|ops| - 1], ops[|ops| - 1];
      Listening(front, key)
      + (if last.Notify? && last.key == key && Parts(key) in Run(front) then [last.listener] else [])
  }

  lemma {:induction false} StepListeners<D>(m: Flat<D>, op: Op<D>, key: string)
    ensures Parts(key) in m ==>
              && Parts(key) in Step(m, op)
              && Step(m, op)[Parts(key)].listeners
                 == m[Parts(key)].listeners + (if op.Notify? && op.key == key then [op.listener] else [])
    ensures Parts(key) !in m && Parts(key) in Step(m, op) ==> Step(m, op)[Parts(key)].listeners == []
  {
    hide Parts, ValidPath, IsPrefix;
    if op.Notify? && Parts(op.key) == Parts(key) { PartsInjective(op.key, key); }
  }

  /** A key's listeners are exactly those added for it, in order: re-registering, setting and resetting
      keep them. So a Set calls each of them once, in that order, with the stored value. */
  lemma {:induction false} ListenersInOrder<D>(ops: seq<Op<D>>, key: string)
    ensures Parts(key) in Run(ops) ==> Run(ops)[Parts(key)].listeners == Listening(ops, key)
    ensures Parts(key) !in Run(ops) ==> Listening(ops, key) == []
  {
    hide Parts, Step;
    if ops != [] {
      var front, last := ops[..|ops| - 1], ops[|ops| - 1];
      ListenersInOrder(front, key);
      StepListeners(Run(front), last, key);
    }
  }

  // ---------- the order of the keys ----------

  predicate Name(part: string) {
    part != "" && '.' !in part
  }

  predicate Names(p: Path) {
    forall i | 0 <= i < |p| :: Name(p[i])
  }

  /** The one case in which listing part by part is not alphabetical: `a` has something below it and a
      sibling continues `a` with a character below the dot. */
  predicate Clash(p: Path, q: Path) {
    && p != [] && q != []
    && if p[0] == q[0] then Clash(p[1..], q[1..])
       else |p| > 1 && |p[0]| < |q[0]| && q[0][..|p[0]|] == p[0] && q[0][|p[0]|] < '.'
  }

  function Key(p: Path): (s: string) {
    StringUtil.Join(p, ".")
  }

  lemma KeyUnfold(p: Path)
    requires p != []
    ensures Key(p) == p[0] + (if |p| > 1 then "." + Key(p[1..]) else "")
  {
  }

  /** Comparing two names that differ, each at the end of its key or before a dot. */
  lemma {:induction false} NameLess(a: string, b: string, s: string, t: string)
    requires '.' !in a && '.' !in b && KeyLess(a, b)
    requires (s == "" || s[0] == '.') && (t == "" || t[0] == '.')
    ensures KeyLess(a + s, b + t)
            <==> !(s != "" && |a| < |b| && b[..|a|] == a && b[|a|] < '.')
    decreases a
  {
    if a == "" {
      assert a + s == s && (b + t)[0] == b[0];
      assert b[..0] == "";
    } else {
      assert (a + s)[0] == a[0] && (b + t)[0] == b[0];
      assert (a + s)[1..] == a[1..] + s && (b + t)[1..] == b[1..] + t;
      if a[0] == b[0] {
        NameLess(a[1..], b[1..], s, t);
      }
    }
  }

  /** Two paths in order have their keys in alphabetical order exactly when they do not clash. */
  lemma {:induction false} AlphabeticalExactly(p: Path, q: Path)
    requires PathLess(p, q) && Names(p) && Names(q) && p != []
    ensures KeyLess(Key(p), Key(q)) <==> !Clash(p, q)
    decreases |p|
  {
    hide KeyLess, Key, Name;
    KeyUnfold(p);
    KeyUnfold(q);
    if p[0] != q[0] {
      DifferentNames(p, q);
    } else {
      var a := p[0];
      KeyLessIrreflexive(a);
      if |p| == 1 {
        assert a + "" == a && q[1..] != [];
        PrefixKeyLess(a, Key(q[1..]));
      } else {
        assert Names(p[1..]) && Names(q[1..]);
        AlphabeticalExactly(p[1..], q[1..]);
        KeyLessFront(a + ".", Key(p[1..]), Key(q[1..]));
        assert a + "." + Key(p[1..]) == a + ("." + Key(p[1..]));
        assert a + "." + Key(q[1..]) == a + ("." + Key(q[1..]));
      }
    }
  }

  lemma PrefixKeyLess(a: string, rest: string)
    ensures KeyLess(a, a + ("." + rest))
  {
    KeyLessFront(a, "", "." + rest);
    assert a + "" == a;
  }

  lemma {:induction false} DifferentNames(p: Path, q: Path)
    requires p != [] && q != [] && p[0] != q[0] && KeyLess(p[0], q[0]) && Names(p) && Names(q)
    ensures KeyLess(Key(p), Key(q)) <==> !Clash(p, q)
  {
    hide KeyLess, Key;
    KeyUnfold(p);
    KeyUnfold(q);
    NameLess(p[0], q[0], if |p| > 1 then "." + Key(p[1..]) else "", if |q| > 1 then "." + Key(q[1..]) else "");
  }

  /** The list of keys is in alphabetical order exactly when no two of its paths clash. */
  lemma {:induction false} ListAlphabeticalExactly(paths: seq<Path>)
    requires Ascending(paths) && forall i | 0 <= i < |paths| :: Names(paths[i]) && paths[i] != []
    ensures (forall i, j | 0 <= i < j < |paths| :: KeyLess(Dotted([], paths)[i], Dotted([], paths)[j]))
            <==> forall i, j | 0 <= i < j < |paths| :: !Clash(paths[i], paths[j])
  {
    hide KeyLess, Clash, Names;
    forall i | 0 <= i < |paths| ensures Dotted([], paths)[i] == Key(paths[i]) { assert [] + paths[i] == paths[i]; }
    forall i, j | 0 <= i < j < |paths|
      ensures KeyLess(Key(paths[i]), Key(paths[j])) <==> !Clash(paths[i], paths[j])
    {
      AlphabeticalExactly(paths[i], paths[j]);
    }
  }

  /** The keys listed are pairwise different. */
  lemma {:induction false} KeysDiffer(p: Path, q: Path)
    requires p != [] && q != [] && NoDots(p) && NoDots(q) && Key(p) == Key(q)
    ensures p == q
  {
    hide StringUtil.Join;
    DotlessIsLeftmost(p);
    DotlessIsLeftmost(q);
    StringUtil.LeftmostIsSplit(p, ".");
    StringUtil.LeftmostIsSplit(q, ".");
  }

  lemma {:induction false} DotlessIsLeftmost(p: Path)
    requires p != [] && NoDots(p)
    ensures StringUtil.Leftmost(p, ".")
  {
    hide StringUtil.Find;
    forall i | 0 <= i < |p| ensures StringUtil.OnlyAtEnd(p[i] + ".", ".") && StringUtil.Find(p[i], ".", 0).None? {
      forall k | 0 <= k < |p[i]| ensures !StringUtil.Occurs(p[i] + ".", ".", k) && !StringUtil.Occurs(p[i], ".", k) {
        assert (p[i] + ".")[k..k + 1] == [p[i][k]] == p[i][k..k + 1];
      }
    }
  }

  predicate Alphabetical(keys: seq<string>) {
    forall i, j | 0 <= i < j < |keys| :: KeyLess(keys[i], keys[j])
  }

  ghost predicate ClashFree<D>(m: Flat<D>) {
    forall p, q | p in m && q in m && PathLess(p, q) :: !Clash(p, q)
  }

  /** GetAllKeys after any run: every key once, and in alphabetical order exactly when no two clash. */
  method AllKeysAfter<D>(ops: seq<Op<D>>) returns (keys: seq<string>)
    ensures forall i, j | 0 <= i < j < |keys| :: keys[i] != keys[j]
    ensures forall key :: key in keys <==> Parts(key) in Run(ops)
    ensures Alphabetical(keys) <==> ClashFree(Run(ops))
  {
    hide Run, Parts, Dotted, KeyLess, PathLess, Clash, Agrees, ValidPath, NoDots;
    var c := Drive(ops);
    ghost var paths;
    keys, paths := c.GetAllKeys();
    forall p | p in c.flat ensures p != [] { KeysArePrefixes(ops, p); }
    ListedKeys(c.flat, paths);
    ListedOrder(c.flat, paths);
  }

  lemma {:induction false} ListedKeys<D>(m: Flat<D>, paths: seq<Path>)
    requires Ascending(paths) && (forall p :: p in paths <==> p in m) && (forall p | p in m :: p != [] && NoDots(p))
    ensures var keys := Dotted([], paths);
            && (forall i, j | 0 <= i < j < |keys| :: keys[i] != keys[j])
            && forall key :: key in keys <==> Parts(key) in m
  {
    hide PathLess, NoDots, Parts;
    var keys := Dotted([], paths);
    forall i | 0 <= i < |paths| ensures keys[i] == Key(paths[i]) { assert [] + paths[i] == paths[i]; }
    forall i, j | 0 <= i < j < |keys| ensures keys[i] != keys[j] {
      assert paths[i] in m && paths[j] in m;
      if keys[i] == keys[j] {
        KeysDiffer(paths[i], paths[j]);
        PathLessIrreflexive(paths[i]);
      }
    }
    forall key ensures key in keys <==> Parts(key) in m {
      KeyOfParts(key);
      if key in keys {
        var i :| 0 <= i < |keys| && keys[i] == key;
        assert paths[i] in m;
        PartsOfKey(paths[i]);
      }
      if Parts(key) in m {
        var i :| 0 <= i < |paths| && paths[i] == Parts(key);
        assert keys[i] == key;
      }
    }
  }

  lemma {:induction false} PathLessIrreflexive(p: Path)
    ensures !PathLess(p, p)
  {
    if p != [] {
      KeyLessIrreflexive(p[0]);
      PathLessIrreflexive(p[1..]);
    }
  }

  lemma KeyOfParts(key: string)
    ensures Key(Parts(key)) == key
  {
    StringUtil.SplitIsLeftmost(key, ".");
  }

  lemma PartsOfKey(p: Path)
    requires p != [] && NoDots(p)
    ensures Parts(Key(p)) == p
  {
    DotlessIsLeftmost(p);
    StringUtil.LeftmostIsSplit(p, ".");
  }

  lemma {:induction false} ListedOrder<D>(m: Flat<D>, paths: seq<Path>)
    requires Ascending(paths) && (forall p :: p in paths <==> p in m)
    requires forall p | p in m :: p != [] && NoDots(p) && ValidPath(p)
    ensures Alphabetical(Dotted([], paths)) <==> ClashFree(m)
  {
    hide PathLess, Clash, KeyLess, Dotted, Names, NoDots, ValidPath;
    forall i | 0 <= i < |paths| ensures Names(paths[i]) && paths[i] != [] {
      assert paths[i] in m;
      ValidNames(paths[i]);
    }
    ListAlphabeticalExactly(paths);
    if forall i, j | 0 <= i < j < |paths| :: !Clash(paths[i], paths[j]) {
      forall p, q | p in m && q in m && PathLess(p, q) ensures !Clash(p, q) {
        var i :| 0 <= i < |paths| && paths[i] == p;
        var j :| 0 <= j < |paths| && paths[j] == q;
        PathLessIrreflexive(p);
        if j < i { PathLessAsymmetric(p, q); }
      }
    }
    if ClashFree(m) {
      forall i, j | 0 <= i < j < |paths| ensures !Clash(paths[i], paths[j]) {
        assert paths[i] in m && paths[j] in m;
      }
    }
  }

  lemma {:induction false} PathLessAsymmetric(p: Path, q: Path)
    requires PathLess(p, q)
    ensures !PathLess(q, p)
  {
    if p != [] {
      KeyLessIrreflexive(p[0]);
      if KeyLess(p[0], q[0]) && KeyLess(q[0], p[0]) { KeyLessTransitive(p[0], q[0], p[0]); }
      if p[0] == q[0] { PathLessAsymmetric(p[1..], q[1..]); }
    }
  }

  lemma ValidNames(p: Path)
    requires NoDots(p) && ValidPath(p)
    ensures Names(p)
  {
  }

  /** Registering two keys whose paths clash is enough for a list that is not alphabetical. */
  lemma {:induction false} ClashingKeysClash<D>(key: string, other: string, v: Validator<D>)
    requires ValidPath(Parts(key)) && ValidPath(Parts(other))
    requires PathLess(Parts(key), Parts(other)) && Clash(Parts(key), Parts(other))
    ensures !ClashFree(Run([Register(key, v), Register(other, v)]))
  {
    hide Parts, ValidPath, PathLess, Clash, Run, IsPrefix;
    var ops := [Register(key, v), Register(other, v)];
    PrefixSelf(Parts(key));
    PrefixSelf(Parts(other));
    assert RegistersAt(ops[0], Parts(key)) && RegistersAt(ops[1], Parts(other));
    KeysArePrefixes(ops, Parts(key));
    KeysArePrefixes(ops, Parts(other));
  }

  /** After registering "a.b" and "a-b" the keys are listed as "a", "a.b", "a-b", though "a-b" comes before
      "a.b" in the alphabet. */
  lemma {:induction false} ListedOutOfOrder<D>(v: Validator<D>)
    ensures !ClashFree(Run([Register("a.b", v), Register("a-b", v)]))
  {
    PartsOfAB();
    PathsOfAB();
    hide Parts, Clash, PathLess, ValidPath;
    ClashingKeysClash("a.b", "a-b", v);
  }

  lemma PathsOfAB()
    ensures PathLess(["a", "b"], ["a-b"]) && Clash(["a", "b"], ["a-b"]) && ValidPath(["a", "b"]) && ValidPath(["a-b"])
  {
    assert KeyLess("", "-b") && "a-b"[1..] == "-b" && "a"[1..] == "";
    assert "a-b"[..1] == "a";
  }

  lemma PartsOfAB()
    ensures Parts("a.b") == ["a", "b"] && Parts("a-b") == ["a-b"]
  {
    KeyUnfold(["a", "b"]);
    assert ["a", "b"][1..] == ["b"] && Key(["b"]) == "b" && Key(["a-b"]) == "a-b";
    assert Key(["a", "b"]) == "a.b";
    PartsOfKey(["a", "b"]);
    PartsOfKey(["a-b"]);
  }
}
