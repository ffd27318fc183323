/**
 What the insertion-ordered map is, at two levels: an association list, and a row of slots in
 which deletion leaves a tombstone until the row is compacted.
 */
module OrderedMapSpec {
  import opened Wrappers

  type Slots<K, V> = seq<Option<(K, V)>>

  datatype Op<K, V> = InsertOrKeep(key: K, value: V) | InsertOrReplace(key: K, value: V) | Delete(key: K)

  // ---------- The association list ----------

  function Lookup<K(==), V>(list: seq<(K, V)>, key: K): Option<V> {
    if list == [] then None
    else if list[0].0 == key then Some(list[0].1)
    else Lookup(list[1..], key)
  }

  function Replaced<K(==), V>(list: seq<(K, V)>, key: K, value: V): seq<(K, V)> {
    if list == [] then []
    else if list[0].0 == key then [(key, value)] + list[1..]
    else [list[0]] + Replaced(list[1..], key, value)
  }

  function Removed<K(==), V>(list: seq<(K, V)>, key: K): seq<(K, V)> {
    if list == [] then []
    else if list[0].0 == key then list[1..]
    else [list[0]] + Removed(list[1..], key)
  }

  /** The list after an operation; the old value of the key is what the operation found. */
  function ListStep<K(==), V>(list: seq<(K, V)>, op: Op<K, V>): seq<(K, V)> {
    var found := Lookup(list, op.key);
    match op
    case InsertOrKeep(key, value) => if found.Some? then list else list + [(key, value)]
    case InsertOrReplace(key, value) => if found.Some? then Replaced(list, key, value) else list + [(key, value)]
    case Delete(key) => Removed(list, key)
  }

  // ---------- Slots ----------

  /** The live entries in order. */
  function Live<K, V>(s: Slots<K, V>): seq<(K, V)> {
    if s == [] then []
    else Live(s[..|s| - 1]) + (if s[|s| - 1].Some? then [s[|s| - 1].value] else [])
  }

  function IndexOf<K(==), V>(s: Slots<K, V>, key: K): (i: Option<nat>)
    ensures i.Some? ==> i.value < |s| && s[i.value].Some? && s[i.value].value.0 == key
    ensures i.None? ==> forall j :: 0 <= j < |s| && s[j].Some? ==> s[j].value.0 != key
  {
    if s == [] then None
    else if s[|s| - 1].Some? && s[|s| - 1].value.0 == key then Some(|s| - 1)
    else IndexOf(s[..|s| - 1], key)
  }

  ghost predicate Distinct<K, V>(s: Slots<K, V>) {
    forall i, j :: 0 <= i < j < |s| && s[i].Some? && s[j].Some? ==> s[i].value.0 != s[j].value.0
  }

  function Packed<K, V>(list: seq<(K, V)>): (s: Slots<K, V>)
    ensures |s| == |list| && forall i :: 0 <= i < |s| ==> s[i] == Some(list[i])
  {
    seq(|list|, i requires 0 <= i < |list| => Some(list[i]))
  }

  predicate NeedsCompaction<K, V>(s: Slots<K, V>) {
    |s| != 0 && 4 * |Live(s)| <= |s|
  }

  function Compacted<K, V>(s: Slots<K, V>): Slots<K, V> {
    if NeedsCompaction(s) then Packed(Live(s)) else s
  }

  function Step<K(==), V>(s: Slots<K, V>, op: Op<K, V>): Slots<K, V> {
    var at := IndexOf(s, op.key);
    match op
    case InsertOrKeep(key, value) => if at.Some? then s else s + [Some((key, value))]
    case InsertOrReplace(key, value) =>
      if at.Some? then s[at.value := Some((key, value))] else s + [Some((key, value))]
    case Delete(key) => if at.Some? then Compacted(s[at.value := None]) else s
  }

  /** The value an operation finds under its key. */
  function Found<K(==), V>(s: Slots<K, V>, key: K): Option<V> {
    var at := IndexOf(s, key);
    if at.Some? then Some(s[at.value].value.1) else None
  }

  function Run<K(==), V>(ops: seq<Op<K, V>>): Slots<K, V> {
    if ops == [] then [] else Step(Run(ops[..|ops| - 1]), ops[|ops| - 1])
  }

  function ListRun<K(==), V>(ops: seq<Op<K, V>>): seq<(K, V)> {
    if ops == [] then [] else ListStep(ListRun(ops[..|ops| - 1]), ops[|ops| - 1])
  }

  // ---------- Live entries of changed slots ----------

  lemma {:induction false} LiveOfConcat<K, V>(a: Slots<K, V>, b: Slots<K, V>)
    ensures Live(a + b) == Live(a) + Live(b)
    decreases |b|
  {
    if b == [] {
      assert a + b == a;
    } else {
      var n := |b| - 1;
      LiveOfConcat(a, b[..n]);
      assert (a + b)[..|a + b| - 1] == a + b[..n];
    }
  }

  lemma LiveOfOne<K, V>(x: Option<(K, V)>)
    ensures Live([x]) == if x.Some? then [x.value] else []
  {
    assert [x][..0] == [];
  }

  lemma LiveOfThree<K, V>(a: Slots<K, V>, x: Option<(K, V)>, b: Slots<K, V>)
    ensures Live(a + [x] + b) == Live(a) + (if x.Some? then [x.value] else []) + Live(b)
  {
    hide Live;
    LiveOfConcat(a + [x], b);
    LiveOfConcat(a, [x]);
    LiveOfOne(x);
  }

  lemma SplitAround<T>(s: seq<T>, i: nat)
    requires i < |s|
    ensures s == s[..i] + [s[i]] + s[i + 1..]
  {
  }

  lemma LiveAround<K, V>(s: Slots<K, V>, i: nat)
    requires i < |s|
    ensures Live(s) == Live(s[..i]) + (if s[i].Some? then [s[i].value] else []) + Live(s[i + 1..])
  {
    hide Live;
    LiveOfThree(s[..i], s[i], s[i + 1..]);
    SplitAround(s, i);
  }

  lemma {:induction false} LiveOfPacked<K, V>(list: seq<(K, V)>)
    ensures Live(Packed(list)) == list
    decreases |list|
  {
    if list != [] {
      var n := |list| - 1;
      LiveOfPacked(list[..n]);
      assert Packed(list)[..n] == Packed(list[..n]);
    }
  }

  /** An entry is live exactly when some slot holds it. */
  lemma {:induction false} LiveMembers<K, V>(s: Slots<K, V>, e: (K, V))
    ensures e in Live(s) <==> Some(e) in s
    decreases |s|
  {
    if s != [] {
      LiveMembers(s[..|s| - 1], e);
    }
  }

  /** Operations on an association list that is put together from two parts. */
  lemma {:induction false} ListAround<K, V>(a: seq<(K, V)>, e: (K, V), b: seq<(K, V)>, value: V)
    requires forall x :: x in a ==> x.0 != e.0
    ensures Lookup(a + [e] + b, e.0) == Some(e.1)
    ensures Replaced(a + [e] + b, e.0, value) == a + [(e.0, value)] + b
    ensures Removed(a + [e] + b, e.0) == a + b
    decreases |a|
  {
    if a == [] {
      assert a + [e] + b == [e] + b;
    } else {
      assert (a + [e] + b)[1..] == a[1..] + [e] + b;
      ListAround(a[1..], e, b, value);
    }
  }

  lemma {:induction false} ListWithout<K, V>(list: seq<(K, V)>, key: K)
    requires forall x :: x in list ==> x.0 != key
    ensures Lookup(list, key) == None && Removed(list, key) == list
  {
    if list != [] {
      ListWithout(list[1..], key);
    }
  }

  // ---------- One step ----------

  /** The slot of a key splits the live list around the entry of that key. */
  lemma KeySplitsList<K, V>(s: Slots<K, V>, i: nat, value: V)
    requires Distinct(s) && i < |s| && s[i].Some?
    ensures var e, list := s[i].value, Live(s);
            && Lookup(list, e.0) == Some(e.1)
            && Replaced(list, e.0, value) == Live(s[..i]) + [(e.0, value)] + Live(s[i + 1..])
            && Removed(list, e.0) == Live(s[..i]) + Live(s[i + 1..])
  {
    hide Live, Lookup, Replaced, Removed;
    var e := s[i].value;
    LiveAround(s, i);
    forall x | x in Live(s[..i]) ensures x.0 != e.0 {
      LiveMembers(s[..i], x);
    }
    ListAround(Live(s[..i]), e, Live(s[i + 1..]), value);
  }

  lemma KeyNotInList<K, V>(s: Slots<K, V>, key: K)
    requires IndexOf(s, key).None?
    ensures Lookup(Live(s), key) == None && Removed(Live(s), key) == Live(s)
  {
    forall x | x in Live(s) ensures x.0 != key {
      LiveMembers(s, x);
    }
    ListWithout(Live(s), key);
  }

  lemma FoundIsLookup<K, V>(s: Slots<K, V>, key: K)
    requires Distinct(s)
    ensures Found(s, key) == Lookup(Live(s), key)
  {
    var at := IndexOf(s, key);
    if at.Some? {
      KeySplitsList(s, at.value, s[at.value].value.1);
    } else {
      KeyNotInList(s, key);
    }
  }

  lemma LiveOfUpdate<K, V>(s: Slots<K, V>, i: nat, x: Option<(K, V)>)
    requires i < |s|
    ensures Live(s[i := x]) == Live(s[..i]) + (if x.Some? then [x.value] else []) + Live(s[i + 1..])
  {
    var t := s[i := x];
    assert t[..i] == s[..i] && t[i + 1..] == s[i + 1..];
    LiveAround(t, i);
  }

  lemma {:induction false} LiveIsDistinct<K, V>(s: Slots<K, V>)
    requires Distinct(s)
    ensures Distinct(Packed(Live(s)))
    decreases |s|
  {
    if s != [] {
      var n := |s| - 1;
      LiveIsDistinct(s[..n]);
      var front := Live(s[..n]);
      assert Distinct(Packed(front));
      if s[n].Some? {
        forall i | 0 <= i < |front| ensures front[i].0 != s[n].value.0 {
          LiveMembers(s[..n], front[i]);
        }
        assert forall i :: 0 <= i < |front| ==> Packed(front)[i] == Some(front[i]);
      }
    }
  }

  lemma CompactionKeepsLive<K, V>(s: Slots<K, V>)
    requires Distinct(s)
    ensures Live(Compacted(s)) == Live(s) && Distinct(Compacted(s))
  {
    LiveOfPacked(Live(s));
    LiveIsDistinct(s);
  }

  /** One operation on the slots is the same operation on the list of live entries. */
  lemma StepRefinesList<K, V>(s: Slots<K, V>, op: Op<K, V>)
    requires Distinct(s)
    ensures Distinct(Step(s, op)) && Live(Step(s, op)) == ListStep(Live(s), op)
    ensures Found(s, op.key) == Lookup(Live(s), op.key)
  {
    hide Live, IndexOf, Lookup, Replaced, Removed, Compacted;
    FoundIsLookup(s, op.key);
    var at := IndexOf(s, op.key);
    if at.Some? {
      var i := at.value;
      match op
      case InsertOrKeep(_, _) =>
      case InsertOrReplace(key, value) =>
        KeySplitsList(s, i, value);
        LiveOfUpdate(s, i, Some((key, value)));
      case Delete(key) =>
        KeySplitsList(s, i, s[i].value.1);
        LiveOfUpdate(s, i, None);
        CompactionKeepsLive(s[i := None]);
    } else if op.Delete? {
      KeyNotInList(s, op.key);
    } else {
      var added := [Some((op.key, op.value))];
      LiveOfConcat(s, added);
      LiveOfOne(added[0]);
    }
  }

  // ---------- Whole runs ----------

  /** After any run of operations the live entries are those of the association list, in the
      same order, and every lookup answers as the list does. */
  lemma {:induction false} RunRefinesList<K, V>(ops: seq<Op<K, V>>, key: K)
    ensures Distinct(Run(ops)) && Live(Run(ops)) == ListRun(ops)
    ensures Found(Run(ops), key) == Lookup(ListRun(ops), key)
    decreases |ops|
  {
    if ops != [] {
      RunRefinesList(ops[..|ops| - 1], key);
      StepRefinesList(Run(ops[..|ops| - 1]), ops[|ops| - 1]);
    }
    FoundIsLookup(Run(ops), key);
  }

  // ---------- What the operations do to lookups and to the order ----------

  function KeysOf<K, V>(list: seq<(K, V)>): (keys: seq<K>)
    ensures |keys| == |list| && forall i :: 0 <= i < |keys| ==> keys[i] == list[i].0
  {
    seq(|list|, i requires 0 <= i < |list| => list[i].0)
  }

  ghost predicate DistinctKeys<K, V>(list: seq<(K, V)>) {
    forall i, j :: 0 <= i < j < |list| ==> list[i].0 != list[j].0
  }

  /** A list with distinct keys is a map, and Lookup reads it. */
  lemma {:induction false} LookupIff<K, V>(list: seq<(K, V)>, key: K, value: V)
    requires DistinctKeys(list)
    ensures Lookup(list, key) == Some(value) <==> (key, value) in list
    ensures Lookup(list, key) == None <==> key !in KeysOf(list)
    decreases |list|
  {
    if list != [] {
      LookupIff(list[1..], key, value);
      assert list == [list[0]] + list[1..];
      assert KeysOf(list) == [list[0].0] + KeysOf(list[1..]);
    }
  }

  /** Where the key of an operation is in the list, and what is around it. */
  lemma SplitAtKey<K, V>(list: seq<(K, V)>, key: K) returns (i: nat)
    requires DistinctKeys(list) && Lookup(list, key).Some?
    ensures i < |list| && list[i] == (key, Lookup(list, key).value)
    ensures forall value :: Replaced(list, key, value) == list[i := (key, value)]
    ensures Removed(list, key) == list[..i] + list[i + 1..]
  {
    hide Lookup, Replaced, Removed;
    LookupIff(list, key, Lookup(list, key).value);
    i :| 0 <= i < |list| && list[i] == (key, Lookup(list, key).value);
    SplitAround(list, i);
    forall value ensures Replaced(list, key, value) == list[i := (key, value)] {
      ListAround(list[..i], list[i], list[i + 1..], value);
    }
    ListAround(list[..i], list[i], list[i + 1..], list[i].1);
  }

  /** The keys keep their order: a new key goes to the end, a deleted one leaves a gap, and nothing
      else moves; entries of other keys stay as they are. */
  lemma StepOrder<K, V>(list: seq<(K, V)>, op: Op<K, V>)
    requires DistinctKeys(list)
    ensures var list', found := ListStep(list, op), Lookup(list, op.key).Some?;
            && (found && !op.Delete? ==> KeysOf(list') == KeysOf(list))
            && (!found && !op.Delete? ==> list' == list + [(op.key, op.value)])
            && (!found && op.Delete? ==> list' == list)
            && (found && op.Delete? ==>
                  exists i :: 0 <= i < |list| && list[i].0 == op.key && list' == list[..i] + list[i + 1..])
            && (found && op.InsertOrKeep? ==> list' == list)
            && (found && op.InsertOrReplace? ==>
                  exists i :: 0 <= i < |list| && list[i].0 == op.key && list' == list[i := (op.key, op.value)])
  {
    hide Lookup, Replaced, Removed;
    if Lookup(list, op.key).Some? {
      var i := SplitAtKey(list, op.key);
    } else {
      forall x | x in list ensures x.0 != op.key {
        LookupIff(list, op.key, x.1);
      }
      ListWithout(list, op.key);
    }
  }

  lemma StepDistinct<K, V>(list: seq<(K, V)>, op: Op<K, V>)
    requires DistinctKeys(list)
    ensures DistinctKeys(ListStep(list, op))
  {
    hide Lookup, Replaced, Removed, ListStep;
    StepOrder(list, op);
    LookupNone(list, op.key);
  }

  lemma LookupNone<K, V>(list: seq<(K, V)>, key: K)
    requires DistinctKeys(list)
    ensures Lookup(list, key) == None <==> forall i :: 0 <= i < |list| ==> list[i].0 != key
    ensures Lookup(list, key) == None <==> key !in KeysOf(list)
  {
    if Lookup(list, key).Some? {
      LookupIff(list, key, Lookup(list, key).value);
    }
    forall i | 0 <= i < |list| && list[i].0 == key ensures Lookup(list, key) == Some(list[i].1) {
      LookupIff(list, key, list[i].1);
    }
  }

  /** Entries of other keys stay. */
  lemma StepKeepsOthers<K, V>(list: seq<(K, V)>, op: Op<K, V>, e: (K, V))
    requires DistinctKeys(list) && e.0 != op.key
    ensures e in ListStep(list, op) <==> e in list
  {
    hide Lookup, Replaced, Removed, ListStep;
    StepOrder(list, op);
    var list' := ListStep(list, op);
    if Lookup(list, op.key).Some? && op.Delete? {
      var i :| 0 <= i < |list| && list[i].0 == op.key && list' == list[..i] + list[i + 1..];
      MemberAround(list, i, e);
    } else if Lookup(list, op.key).Some? && op.InsertOrReplace? {
      var i :| 0 <= i < |list| && list[i].0 == op.key && list' == list[i := (op.key, op.value)];
      MemberAround(list, i, e);
      MemberAround(list', i, e);
      assert list'[..i] == list[..i] && list'[i + 1..] == list[i + 1..];
    }
  }

  lemma MemberAround<T>(s: seq<T>, i: nat, e: T)
    requires i < |s|
    ensures e in s <==> e in s[..i] || e == s[i] || e in s[i + 1..]
  {
    SplitAround(s, i);
  }

  lemma OtherLookup<K, V>(list: seq<(K, V)>, op: Op<K, V>, key: K)
    requires DistinctKeys(list) && key != op.key
    ensures Lookup(ListStep(list, op), key) == Lookup(list, key)
  {
    hide Lookup, ListStep, DistinctKeys;
    StepDistinct(list, op);
    if Lookup(list, key).Some? {
      var value := Lookup(list, key).value;
      LookupIff(list, key, value);
      LookupIff(ListStep(list, op), key, value);
      StepKeepsOthers(list, op, (key, value));
    } else if Lookup(ListStep(list, op), key).Some? {
      var value := Lookup(ListStep(list, op), key).value;
      LookupIff(list, key, value);
      LookupIff(ListStep(list, op), key, value);
      StepKeepsOthers(list, op, (key, value));
    }
  }

  lemma OwnLookup<K, V>(list: seq<(K, V)>, op: Op<K, V>)
    requires DistinctKeys(list)
    ensures op.Delete? ==> Lookup(ListStep(list, op), op.key) == None
    ensures op.InsertOrReplace? ==> Lookup(ListStep(list, op), op.key) == Some(op.value)
    ensures op.InsertOrKeep? ==>
              Lookup(ListStep(list, op), op.key) ==
              if Lookup(list, op.key).Some? then Lookup(list, op.key) else Some(op.value)
  {
    hide Lookup, ListStep;
    var list' := ListStep(list, op);
    StepOrder(list, op);
    StepDistinct(list, op);
    LookupNone(list', op.key);
    LookupNone(list, op.key);
    if !op.Delete? && !(op.InsertOrKeep? && Lookup(list, op.key).Some?) {
      LookupIff(list', op.key, op.value);
      assert forall i :: 0 <= i < |list'| ==> list'[i] in list';
    }
  }

  /** An operation gives its key the kept, the new or no value, and leaves all other lookups alone. */
  lemma StepLookups<K, V>(list: seq<(K, V)>, op: Op<K, V>, key: K)
    requires DistinctKeys(list)
    ensures DistinctKeys(ListStep(list, op))
    ensures Lookup(ListStep(list, op), key) ==
            if key != op.key then Lookup(list, key)
            else match op
                 case InsertOrKeep(_, value) => if Lookup(list, key).Some? then Lookup(list, key) else Some(value)
                 case InsertOrReplace(_, value) => Some(value)
                 case Delete(_) => None
  {
    hide Lookup, ListStep;
    StepDistinct(list, op);
    OwnLookup(list, op);
    if key != op.key {
      OtherLookup(list, op, key);
    }
  }

  // ---------- Whole runs by their history ----------

  /** The value of a key by its last operations. */
  function LastValue<K(==), V>(ops: seq<Op<K, V>>, key: K): Option<V>
    decreases |ops|
  {
    if ops == [] then None
    else
      var n := |ops| - 1;
      var before := LastValue(ops[..n], key);
      if ops[n].key != key then before
      else match ops[n]
           case InsertOrKeep(_, value) => if before.Some? then before else Some(value)
           case InsertOrReplace(_, value) => Some(value)
           case Delete(_) => None
  }

  /** The operation that brought a present key in: the first insertion since it was last absent. */
  function Birth<K(==), V>(ops: seq<Op<K, V>>, key: K): (k: Option<nat>)
    ensures k.Some? ==> k.value < |ops|
    decreases |ops|
  {
    if ops == [] then None
    else
      var n := |ops| - 1;
      var before := Birth(ops[..n], key);
      if ops[n].key != key then before
      else if ops[n].Delete? then None
      else if before.Some? then before
      else Some(n)
  }

  ghost predicate ByBirth<K, V>(ops: seq<Op<K, V>>, keys: seq<K>) {
    && (forall i :: 0 <= i < |keys| ==> Birth(ops, keys[i]).Some?)
    && (forall i, j :: 0 <= i < j < |keys| ==> Birth(ops, keys[i]).value < Birth(ops, keys[j]).value)
  }

  lemma BirthsKept<K, V>(ops: seq<Op<K, V>>, keys: seq<K>)
    requires ops != [] && ByBirth(ops[..|ops| - 1], keys)
    requires ops[|ops| - 1].Delete? ==> ops[|ops| - 1].key !in keys
    ensures ByBirth(ops, keys)
  {
    assert forall i :: 0 <= i < |keys| ==> Birth(ops, keys[i]) == Birth(ops[..|ops| - 1], keys[i]);
  }

  lemma BirthAtEnd<K, V>(ops: seq<Op<K, V>>, keys: seq<K>, key: K)
    requires ops != [] && ByBirth(ops[..|ops| - 1], keys) && ByBirth(ops, keys) && key !in keys
    requires Birth(ops, key) == Some(|ops| - 1) && ops[|ops| - 1].key == key
    ensures ByBirth(ops, keys + [key])
  {
    assert forall i :: 0 <= i < |keys| ==> Birth(ops, keys[i]) == Birth(ops[..|ops| - 1], keys[i]);
  }

  lemma BirthGap<K, V>(ops: seq<Op<K, V>>, keys: seq<K>, i: nat)
    requires ByBirth(ops, keys) && i < |keys|
    ensures ByBirth(ops, keys[..i] + keys[i + 1..]) && keys[i] !in keys[..i] + keys[i + 1..]
  {
    var keys' := keys[..i] + keys[i + 1..];
    assert forall j :: 0 <= j < |keys'| ==> keys'[j] == keys[if j < i then j else j + 1];
  }

  /** One more operation keeps the keys in the order of their births. */
  lemma BirthStep<K, V>(ops: seq<Op<K, V>>, list: seq<(K, V)>, key: K)
    requires ops != [] && DistinctKeys(list) && ByBirth(ops[..|ops| - 1], KeysOf(list))
    requires Birth(ops[..|ops| - 1], key).Some? ==> key in KeysOf(list)
    requires Birth(ops[..|ops| - 1], ops[|ops| - 1].key).Some? ==> ops[|ops| - 1].key in KeysOf(list)
    ensures ByBirth(ops, KeysOf(ListStep(list, ops[|ops| - 1])))
    ensures Birth(ops, key).Some? ==> key in KeysOf(ListStep(list, ops[|ops| - 1]))
  {
    hide Lookup, ListStep, Replaced, Removed, ByBirth, DistinctKeys;
    var n := |ops| - 1;
    var op := ops[n];
    var keys, keys' := KeysOf(list), KeysOf(ListStep(list, op));
    StepOrder(list, op);
    LookupNone(list, op.key);
    if Lookup(list, op.key).Some? && op.Delete? {
      var i :| 0 <= i < |list| && list[i].0 == op.key && ListStep(list, op) == list[..i] + list[i + 1..];
      assert keys' == keys[..i] + keys[i + 1..];
      BirthGap(ops[..n], keys, i);
      BirthsKept(ops, keys');
      MemberAround(keys, i, key);
    } else {
      BirthsKept(ops, keys);
      if Lookup(list, op.key).None? && !op.Delete? {
        assert keys' == keys + [op.key];
        BirthAtEnd(ops, keys, op.key);
      }
    }
  }

  /** After any run a lookup finds what the last operations on that key left, and the keys stand in
      the order in which they were brought in. */
  lemma {:induction false} RunByHistory<K, V>(ops: seq<Op<K, V>>, key: K)
    ensures DistinctKeys(ListRun(ops)) && ByBirth(ops, KeysOf(ListRun(ops)))
    ensures key in KeysOf(ListRun(ops)) <==> Birth(ops, key).Some?
    ensures Found(Run(ops), key) == LastValue(ops, key)
    decreases |ops|
  {
    hide Lookup, ListStep, ByBirth;
    RunRefinesList(ops, key);
    if ops == [] {
      NothingYet<K, V>(key);
    } else {
      var n := |ops| - 1;
      RunByHistory(ops[..n], ops[n].key);
      RunByHistory(ops[..n], key);
      RunRefinesList(ops[..n], key);
      StepLookups(ListRun(ops[..n]), ops[n], key);
      BirthStep(ops, ListRun(ops[..n]), key);
    }
    BirthOfMembers(ops, KeysOf(ListRun(ops)), key);
  }

  lemma BirthOfMembers<K, V>(ops: seq<Op<K, V>>, keys: seq<K>, key: K)
    requires ByBirth(ops, keys)
    ensures key in keys ==> Birth(ops, key).Some?
  {
  }

  lemma NothingYet<K, V>(key: K)
    ensures ByBirth<K, V>([], KeysOf<K, V>([])) && Lookup<K, V>([], key) == None
  {
  }

  /** No slots at all, or fewer used slots than four times the live entries. */
  ghost predicate Dense<K, V>(s: Slots<K, V>) {
    s == [] || |s| < 4 * |Live(s)|
  }

  predicate Deletes<K(==), V>(s: Slots<K, V>, op: Op<K, V>) {
    op.Delete? && IndexOf(s, op.key).Some?
  }

  /** Entries that the compaction caused by an operation moves. */
  function Moved<K(==), V>(s: Slots<K, V>, op: Op<K, V>): nat {
    if Deletes(s, op) then
      var t := s[IndexOf(s, op.key).value := None];
      if NeedsCompaction(t) then |Live(t)| else 0
    else 0
  }

  function TotalMoved<K(==), V>(ops: seq<Op<K, V>>): nat {
    if ops == [] then 0 else
      var before := ops[..|ops| - 1];
      TotalMoved(before) + Moved(Run(before), ops[|ops| - 1])
  }

  function TotalDeletes<K(==), V>(ops: seq<Op<K, V>>): nat {
    if ops == [] then 0 else
      var before := ops[..|ops| - 1];
      TotalDeletes(before) + (if Deletes(Run(before), ops[|ops| - 1]) then 1 else 0)
  }

  lemma {:induction false} LiveIsShorter<K, V>(s: Slots<K, V>)
    ensures |Live(s)| <= |s|
  {
    if s != [] {
      LiveIsShorter(s[..|s| - 1]);
    }
  }

  lemma EmptyHasNone<K, V>(key: K)
    ensures Live<K, V>([]) == [] && IndexOf<K, V>([], key).None?
  {
  }

  /** The effect of a step on the used and live counts; each tombstone pays for a third of a move. */
  lemma StepCost<K, V>(s: Slots<K, V>, op: Op<K, V>)
    requires Dense(s)
    ensures Dense(Step(s, op))
    ensures 3 * Moved(s, op) + |Step(s, op)| - |Live(Step(s, op))| <=
            |s| - |Live(s)| + (if Deletes(s, op) then 1 else 0)
  {
    hide Live, IndexOf;
    EmptyHasNone<K, V>(op.key);
    var at := IndexOf(s, op.key);
    if at.Some? {
      var i := at.value;
      LiveAround(s, i);
      if op.InsertOrReplace? {
        LiveOfUpdate(s, i, Some((op.key, op.value)));
      } else if op.Delete? {
        LiveOfUpdate(s, i, None);
        LiveOfPacked(Live(s[i := None]));
      }
    } else if !op.Delete? {
      var added := [Some((op.key, op.value))];
      LiveOfConcat(s, added);
      LiveOfOne(added[0]);
    }
  }

  /** In every reachable map the used slots are fewer than four times the live entries, and over
      a whole run three times the moved entries are at most the successful deletes. */
  lemma {:induction false} RunCost<K, V>(ops: seq<Op<K, V>>)
    ensures Dense(Run(ops))
    ensures 3 * TotalMoved(ops) + |Run(ops)| - |Live(Run(ops))| <= TotalDeletes(ops)
    ensures 3 * TotalMoved(ops) <= TotalDeletes(ops)
    decreases |ops|
  {
    LiveIsShorter(Run(ops));
    if ops != [] {
      RunCost(ops[..|ops| - 1]);
      StepCost(Run(ops[..|ops| - 1]), ops[|ops| - 1]);
    }
  }

  // ---------- Every dense shape is reached ----------

  /** No state along the run uses more than `limit` slots. */
  ghost predicate Within<K, V>(ops: seq<Op<K, V>>, limit: nat)
    decreases |ops|
  {
    |Run(ops)| <= limit && (ops != [] ==> Within(ops[..|ops| - 1], limit))
  }

  ghost predicate Apart<K>(keys: seq<K>) {
    forall i, j :: 0 <= i < j < |keys| ==> keys[i] != keys[j]
  }

  /** Insert all keys in order, then delete the first `gone` of them. */
  function FillThenDelete<K, V>(keys: seq<K>, value: V, gone: nat): seq<Op<K, V>>
    requires gone <= |keys|
    decreases |keys| + gone
  {
    if gone > 0 then FillThenDelete(keys, value, gone - 1) + [Delete(keys[gone - 1])]
    else if keys == [] then []
    else FillThenDelete(keys[..|keys| - 1], value, 0) + [InsertOrKeep(keys[|keys| - 1], value)]
  }

  /** A slot for each key, with tombstones in the first `gone` slots. */
  function Row<K, V>(keys: seq<K>, value: V, gone: nat): (s: Slots<K, V>)
    ensures |s| == |keys| && forall i :: 0 <= i < |s| ==> s[i] == if i < gone then None else Some((keys[i], value))
  {
    seq(|keys|, i requires 0 <= i < |keys| => if i < gone then None else Some((keys[i], value)))
  }

  lemma {:induction false} LiveOfRow<K, V>(keys: seq<K>, value: V, gone: nat)
    ensures |Live(Row(keys, value, gone))| == if gone <= |keys| then |keys| - gone else 0
    decreases |keys|
  {
    if keys != [] {
      var n := |keys| - 1;
      LiveOfRow(keys[..n], value, gone);
      assert Row(keys, value, gone)[..n] == Row(keys[..n], value, gone);
    }
  }

  lemma RowGrows<K, V>(keys: seq<K>, value: V)
    requires Apart(keys) && keys != []
    ensures var n := |keys| - 1;
            Step(Row(keys[..n], value, 0), InsertOrKeep(keys[n], value)) == Row(keys, value, 0)
  {
    hide IndexOf;
    var n := |keys| - 1;
    assert IndexOf(Row(keys[..n], value, 0), keys[n]).None?;
    assert Row(keys, value, 0) == Row(keys[..n], value, 0) + [Some((keys[n], value))];
  }

  lemma RowLosesOne<K, V>(keys: seq<K>, value: V, gone: nat)
    requires Apart(keys) && 0 < gone && |keys| < 4 * (|keys| - gone)
    ensures Step(Row(keys, value, gone - 1), Delete(keys[gone - 1])) == Row(keys, value, gone)
  {
    hide IndexOf, Live;
    var s := Row(keys, value, gone - 1);
    assert s[gone - 1] == Some((keys[gone - 1], value));
    assert IndexOf(s, keys[gone - 1]) == Some(gone - 1);
    assert s[gone - 1 := None] == Row(keys, value, gone);
    LiveOfRow(keys, value, gone);
  }

  lemma {:induction false} FillThenDeleteMakesRow<K, V>(keys: seq<K>, value: V, gone: nat)
    requires Apart(keys) && gone <= |keys| && (gone == 0 || |keys| < 4 * (|keys| - gone))
    ensures Run(FillThenDelete(keys, value, gone)) == Row(keys, value, gone)
    ensures Within(FillThenDelete(keys, value, gone), |keys|)
    decreases |keys| + gone
  {
    hide Step;
    var ops := FillThenDelete(keys, value, gone);
    if gone > 0 {
      FillThenDeleteMakesRow(keys, value, gone - 1);
      assert ops[..|ops| - 1] == FillThenDelete(keys, value, gone - 1);
      RowLosesOne(keys, value, gone);
    } else if keys != [] {
      var front := keys[..|keys| - 1];
      FillThenDeleteMakesRow(front, value, 0);
      assert ops[..|ops| - 1] == FillThenDelete(front, value, 0);
      WithinMore(ops[..|ops| - 1], |front|, |keys|);
      RowGrows(keys, value);
    }
  }

  lemma {:induction false} WithinMore<K, V>(ops: seq<Op<K, V>>, limit: nat, more: nat)
    requires Within(ops, limit) && limit <= more
    ensures Within(ops, more)
    decreases |ops|
  {
    if ops != [] {
      WithinMore(ops[..|ops| - 1], limit, more);
    }
  }

  /** A run that uses `used` slots for `live` entries without ever using more. */
  ghost predicate Reaches<K, V>(ops: seq<Op<K, V>>, used: nat, live: nat) {
    Within(ops, used) && |Run(ops)| == used && |Live(Run(ops))| == live
  }

  /** The density bound is exact: a positive number of used slots goes with a number of live entries
      in some run if and only if it is at least that number and less than four times it. */
  lemma ReachedIffDense<K, V>(keys: seq<K>, value: V, live: nat)
    requires Apart(keys) && keys != []
    ensures (exists ops: seq<Op<K, V>> :: Reaches(ops, |keys|, live)) <==> live <= |keys| < 4 * live
  {
    if live <= |keys| < 4 * live {
      var ops := FillThenDelete(keys, value, |keys| - live);
      FillThenDeleteMakesRow(keys, value, |keys| - live);
      LiveOfRow(keys, value, |keys| - live);
      assert Reaches(ops, |keys|, live);
    }
    forall ops: seq<Op<K, V>> | Reaches(ops, |keys|, live) ensures live <= |keys| < 4 * live {
      RunCost(ops);
      LiveIsShorter(Run(ops));
    }
  }
}
