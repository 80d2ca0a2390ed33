/** Reference-counted kernel objects and the registry that finds them by key. */
module KernelObjects {
  import opened Bytes

  // ---- the registry ---------------------------------------------------------------------------

  datatype Ref<T> = Ref(key: nat, who: T)

  /** The registry, in ascending key order. */
  ghost predicate Ordered<T>(refs: seq<Ref<T>>) {
    forall i, j :: 0 <= i < j < |refs| ==> refs[i].key < refs[j].key
  }

  predicate HasKey<T>(refs: seq<Ref<T>>, key: nat) {
    exists i :: 0 <= i < |refs| && refs[i].key == key
  }

  function Position<T>(refs: seq<Ref<T>>, key: nat): (i: nat)
    ensures i <= |refs|
    ensures forall j :: 0 <= j < i ==> refs[j].key < key
    ensures i < |refs| ==> key <= refs[i].key
  {
    if refs == [] || key <= refs[0].key then 0 else
      var i := Position(refs[1..], key);
      assert forall j :: 0 < j < |refs| ==> refs[j] == refs[1..][j - 1];
      1 + i
  }

  /** `emplace`: a key already present keeps its object. */
  function Added<T>(refs: seq<Ref<T>>, key: nat, who: T): seq<Ref<T>> {
    var i := Position(refs, key);
    if i < |refs| && refs[i].key == key then refs else refs[..i] + [Ref(key, who)] + refs[i..]
  }

  /** The walk of `RemoveReference(0)`: it goes on while the key it holds is zero. */
  function KeyOf<T(==)>(refs: seq<Ref<T>>, who: T): nat {
    if refs == [] then 0
    else if refs[0].who == who && refs[0].key != 0 then refs[0].key
    else KeyOf(refs[1..], who)
  }

  /** `erase` by key. */
  function Erased<T>(refs: seq<Ref<T>>, key: nat): seq<Ref<T>> {
    var i := Position(refs, key);
    if i < |refs| && refs[i].key == key then refs[..i] + refs[i + 1..] else refs
  }

  function Removed<T(==)>(refs: seq<Ref<T>>, who: T): seq<Ref<T>> {
    Erased(refs, KeyOf(refs, who))
  }

  /** Registering: a taken key changes nothing; a free one gets the object, and every other entry stays. */
  lemma AddedEntries<T>(refs: seq<Ref<T>>, key: nat, who: T)
    requires Ordered(refs)
    ensures Ordered(Added(refs, key, who))
    ensures (exists r :: r in refs && r.key == key) ==> Added(refs, key, who) == refs
    ensures !(exists r :: r in refs && r.key == key) ==>
      forall r :: r in Added(refs, key, who) <==> r in refs || r == Ref(key, who)
  {
    hide Ordered, Position;
    var i := Position(refs, key);
    PositionFindsKey(refs, key);
    if i == |refs| || refs[i].key != key {
      InsertedMembers(refs, i, Ref(key, who));
      AddedIsOrdered(refs, i, Ref(key, who));
    }
  }

  lemma PositionFindsKey<T>(refs: seq<Ref<T>>, key: nat)
    requires Ordered(refs)
    ensures var i := Position(refs, key);
      (i < |refs| && refs[i].key == key) <==> exists r :: r in refs && r.key == key
  {
    var i := Position(refs, key);
    if i < |refs| && refs[i].key == key {
      assert refs[i] in refs;
    }
    if r :| r in refs && r.key == key {
      var j :| 0 <= j < |refs| && refs[j] == r;
      KeysAscend(refs, i, j);
    }
  }

  lemma KeysAscend<T>(refs: seq<Ref<T>>, i: nat, j: nat)
    requires Ordered(refs) && i <= j < |refs|
    ensures refs[i].key <= refs[j].key
  {
  }

  lemma InsertedMembers<T>(refs: seq<Ref<T>>, i: nat, e: Ref<T>)
    requires i <= |refs|
    ensures forall r :: r in refs[..i] + [e] + refs[i..] <==> r in refs || r == e
  {
    assert refs == refs[..i] + refs[i..];
  }

  lemma AddedIsOrdered<T>(refs: seq<Ref<T>>, i: nat, e: Ref<T>)
    requires Ordered(refs) && i <= |refs|
    requires (i > 0 ==> refs[i - 1].key < e.key) && (i < |refs| ==> e.key < refs[i].key)
    ensures Ordered(refs[..i] + [e] + refs[i..])
  {
    var r := refs[..i] + [e] + refs[i..];
    forall j, k | 0 <= j < k < |r| ensures r[j].key < r[k].key {
      assert r[j] == if j < i then refs[j] else if j == i then e else refs[j - 1];
      assert r[k] == if k < i then refs[k] else if k == i then e else refs[k - 1];
    }
  }

  /** Erasing takes away the entry of the key, and no other. */
  lemma ErasedEntries<T>(refs: seq<Ref<T>>, key: nat)
    requires Ordered(refs)
    ensures Ordered(Erased(refs, key))
    ensures forall r :: r in Erased(refs, key) <==> r in refs && r.key != key
  {
    hide Position;
    PositionFindsKey(refs, key);
    var i := Position(refs, key);
    if i < |refs| && refs[i].key == key {
      WithoutMembers(refs, i);
    }
  }

  lemma WithoutMembers<T>(refs: seq<Ref<T>>, i: nat)
    requires Ordered(refs) && i < |refs|
    ensures Ordered(refs[..i] + refs[i + 1..])
    ensures forall r :: r in refs[..i] + refs[i + 1..] <==> r in refs && r.key != refs[i].key
  {
    assert refs == refs[..i] + [refs[i]] + refs[i + 1..];
    forall r | r in refs[..i] + refs[i + 1..] ensures r.key != refs[i].key {
      var j :| 0 <= j < |refs| && j != i && refs[j] == r;
    }
  }

  /** How many keys an object is registered under. */
  function Registrations<T(==)>(refs: seq<Ref<T>>, who: T): nat {
    if refs == [] then 0 else (if refs[0].who == who then 1 else 0) + Registrations(refs[1..], who)
  }

  lemma {:induction false} RegistrationsOfConcat<T>(a: seq<Ref<T>>, b: seq<Ref<T>>, who: T)
    ensures Registrations(a + b, who) == Registrations(a, who) + Registrations(b, who)
  {
    if a == [] {
      assert a + b == b;
    } else {
      assert (a + b)[1..] == a[1..] + b;
      RegistrationsOfConcat(a[1..], b, who);
    }
  }

  lemma {:induction false} KeyOfIsRegistered<T>(refs: seq<Ref<T>>, who: T)
    ensures KeyOf(refs, who) != 0 ==> Ref(KeyOf(refs, who), who) in refs
    ensures KeyOf(refs, who) == 0 ==> forall r :: r in refs && r.who == who ==> r.key == 0
  {
    if refs != [] {
      KeyOfIsRegistered(refs[1..], who);
      assert refs == [refs[0]] + refs[1..];
    }
  }

  lemma PositionIs<T>(refs: seq<Ref<T>>, i: nat)
    requires Ordered(refs) && i < |refs|
    ensures Position(refs, refs[i].key) == i
  {
  }

  lemma {:induction false} NoneRegistered<T>(refs: seq<Ref<T>>, who: T)
    ensures Registrations(refs, who) == 0 <==> forall r :: r in refs ==> r.who != who
  {
    if refs != [] {
      NoneRegistered(refs[1..], who);
      assert refs == [refs[0]] + refs[1..];
    }
  }

  /** Erasing entry `i` takes one registration from its object and none from any other. */
  lemma ErasedAt<T>(refs: seq<Ref<T>>, i: nat, who: T)
    requires Ordered(refs) && i < |refs|
    ensures Erased(refs, refs[i].key) == refs[..i] + refs[i + 1..]
    ensures Registrations(Erased(refs, refs[i].key), who)
         == Registrations(refs, who) - if refs[i].who == who then 1 else 0
  {
    hide Registrations, Ordered, Position;
    PositionIs(refs, i);
    RegistrationsWithout(refs, i, who);
  }

  lemma RegistrationsWithout<T>(refs: seq<Ref<T>>, i: nat, who: T)
    requires i < |refs|
    ensures Registrations(refs[..i] + refs[i + 1..], who)
         == Registrations(refs, who) - if refs[i].who == who then 1 else 0
  {
    var front, rest := refs[..i], refs[i..];
    assert refs == front + rest && rest[1..] == refs[i + 1..] && rest[0] == refs[i];
    RegistrationsOfConcat(front, rest, who);
    RegistrationsOfConcat(front, refs[i + 1..], who);
  }

  lemma UniqueKey<T>(refs: seq<Ref<T>>, a: Ref<T>, b: Ref<T>)
    requires Ordered(refs) && a in refs && b in refs && a.key == b.key
    ensures a == b
  {
  }

  /** The entry at key zero, wherever the walk finds no other key. */
  lemma RemovedCount<T>(refs: seq<Ref<T>>, who: T, other: T)
    requires Ordered(refs)
    ensures var key := KeyOf(refs, who);
      Registrations(Removed(refs, who), other)
        == Registrations(refs, other) - if Ref(key, other) in refs then 1 else 0
  {
    var key := KeyOf(refs, who);
    KeyOfIsRegistered(refs, who);
    if HasKey(refs, key) {
      var i :| 0 <= i < |refs| && refs[i].key == key;
      ErasedAt(refs, i, other);
      if Ref(key, other) in refs {
        UniqueKey(refs, Ref(key, other), refs[i]);
      }
    } else {
      assert forall i :: 0 <= i < |refs| ==> refs[i].key != key;
    }
  }

  /** Afterwards no entry of the object is left, exactly when it was registered under at most one key. */
  lemma RemovedCleanIff<T>(refs: seq<Ref<T>>, who: T)
    requires Ordered(refs)
    ensures Registrations(Removed(refs, who), who) == 0 <==> Registrations(refs, who) <= 1
  {
    RemovedCount(refs, who, who);
    KeyOfIsRegistered(refs, who);
    NoneRegistered(refs, who);
    if Registrations(refs, who) == 1 && KeyOf(refs, who) == 0 {
      var r :| r in refs && r.who == who;
      assert r == Ref(0, who);
    }
  }

  /** Another object loses its entry exactly when it holds key zero and the removed object holds no key. */
  lemma RemovedSparesIff<T>(refs: seq<Ref<T>>, who: T, other: T)
    requires Ordered(refs) && who != other
    ensures Registrations(Removed(refs, who), other) == Registrations(refs, other)
       <==> !(Registrations(refs, who) == 0 && Ref(0, other) in refs)
  {
    RemovedCount(refs, who, other);
    KeyOfIsRegistered(refs, who);
    NoneRegistered(refs, who);
    var key := KeyOf(refs, who);
    if key != 0 && Ref(key, other) in refs {
      UniqueKey(refs, Ref(key, other), Ref(key, who));
    }
    if key == 0 && Ref(0, other) in refs {
      forall r | r in refs ensures r.who != who {
        if r.key == 0 {
          UniqueKey(refs, r, Ref(0, other));
        }
      }
    }
  }

  /** Two keys leave one behind, and an object without a key takes away the one at zero. */
  lemma RemovalsThatFail<T>(who: T, other: T)
    requires who != other
    ensures var twice := [Ref(1, who), Ref(2, who)];
      Ordered(twice) && Removed(twice, who) == [Ref(2, who)] && Registrations(Removed(twice, who), who) == 1
    ensures var once := [Ref(0, other)];
      Ordered(once) && Removed(once, who) == [] && Registrations(once, other) == 1
  {
    var twice, once := [Ref(1, who), Ref(2, who)], [Ref(0, other)];
    assert Position(twice, 1) == 0 && twice[..0] + twice[1..] == [Ref(2, who)];
    assert once[1..] == [] && KeyOf(once, who) == 0;
    assert Position(once, 0) == 0 && once[..0] + once[1..] == [];
    assert [Ref(2, who)][1..] == [];
  }

  // ---- the counter ------------------------------------------------------------------------------

  function Up(counter: nat): nat {
    (counter + 1) % U32_LIMIT
  }

  function Down(counter: nat): nat {
    (counter + U32_LIMIT - 1) % U32_LIMIT
  }

  /** Counters, destructions and the registry, as values. */
  datatype Store<T> = Store(counters: map<T, nat>, destroyed: map<T, nat>, refs: seq<Ref<T>>)

  function Count<T>(m: map<T, nat>, who: T): nat {
    if who in m then m[who] else 0
  }

  lemma CountsFromZero<T>(m: map<T, nat>, who: T, n: nat)
    ensures Count(map[], who) == 0 && Count(m[who := n], who) == n
    ensures forall other :: other != who ==> Count(m[who := n], other) == Count(m, other)
  {
  }

  /** `DeteriorateLifetime` on `who`. */
  function Drop<T>(s: Store<T>, who: T): Store<T> {
    var counter := Down(Count(s.counters, who));
    var after := s.(counters := s.counters[who := counter]);
    if counter > 0 then after
    else after.(refs := Removed(s.refs, who), destroyed := s.destroyed[who := Count(s.destroyed, who) + 1])
  }

  class Kernel {
    var autorefs: seq<Ref<KAutoObject>>

    constructor ()
      ensures autorefs == []
    {
      autorefs := [];
    }
  }

  class KAutoObject {
    const kernel: Kernel
    var counter: nat
    /** How often `Destroyed` ran. */
    var destroyed: nat

    constructor (kernel: Kernel)
      ensures this.kernel == kernel && counter == 0 && destroyed == 0
    {
      this.kernel, counter, destroyed := kernel, 0, 0;
    }

    method AddReference(value: nat)
      modifies kernel
      ensures kernel.autorefs == Added(old(kernel.autorefs), value, this)
    {
      var i := Position(kernel.autorefs, value);
      if !(i < |kernel.autorefs| && kernel.autorefs[i].key == value) {
        kernel.autorefs := kernel.autorefs[..i] + [Ref(value, this)] + kernel.autorefs[i..];
      }
    }

    method RemoveReference(wanted: nat)
      modifies kernel
      ensures kernel.autorefs
           == Erased(old(kernel.autorefs), if wanted != 0 then wanted else KeyOf(old(kernel.autorefs), this))
    {
      var value, site := wanted, 0;
      while site < |kernel.autorefs| && value == 0
        invariant site <= |kernel.autorefs| && kernel.autorefs == old(kernel.autorefs)
        invariant wanted != 0 ==> value == wanted
        invariant wanted == 0 && value == 0 ==> KeyOf(kernel.autorefs, this) == KeyOf(kernel.autorefs[site..], this)
        invariant wanted == 0 && value != 0 ==> KeyOf(kernel.autorefs, this) == value
      {
        if kernel.autorefs[site].who == this {
          value := kernel.autorefs[site].key;
        }
        site := site + 1;
      }
      kernel.autorefs := Erased(kernel.autorefs, value);
    }

    method GetObjectBy(value: nat, inclife: bool) returns (found: KAutoObject?)
      requires Ordered(kernel.autorefs)
      modifies set r | r in kernel.autorefs :: r.who`counter
      ensures found == null <==> !HasKey(kernel.autorefs, value)
      ensures found != null ==> exists r :: r in kernel.autorefs && r.key == value && r.who == found
      ensures found != null ==> found.counter == if inclife then Up(old(found.counter)) else old(found.counter)
      ensures forall r :: r in kernel.autorefs && r.who != found ==> r.who.counter == old(r.who.counter)
    {
      var i := Position(kernel.autorefs, value);
      if i == |kernel.autorefs| || kernel.autorefs[i].key != value {
        return null;
      }
      found := kernel.autorefs[i].who;
      if inclife {
        found.IncreaseLifetime();
      }
    }

    method IncreaseLifetime()
      modifies `counter
      ensures counter == Up(old(counter))
    {
      counter := (counter + 1) % U32_LIMIT;
    }

    /** `Destroyed` runs, after the registry entry is dropped, exactly when the counter comes to zero. */
    method DeteriorateLifetime()
      modifies `counter, `destroyed, kernel
      ensures counter == Down(old(counter))
      ensures destroyed == old(destroyed) + if counter == 0 then 1 else 0
      ensures kernel.autorefs == if counter == 0 then Removed(old(kernel.autorefs), this) else old(kernel.autorefs)
    {
      counter := (counter + U32_LIMIT - 1) % U32_LIMIT;
      if counter > 0 {
        return;
      }
      RemoveReference(0);
      destroyed := destroyed + 1;
    }
  }

  ghost function StoreOf(objects: set<KAutoObject>, kernel: Kernel): Store<KAutoObject>
    reads objects, kernel
  {
    Store(map o | o in objects :: o.counter, map o | o in objects :: o.destroyed, kernel.autorefs)
  }

  /** One release, seen on the values; `s` is the store before it. */
  lemma DropIs(objects: set<KAutoObject>, kernel: Kernel, who: KAutoObject, s: Store<KAutoObject>)
    requires s.counters.Keys == s.destroyed.Keys == objects && who in objects
    requires who.counter == Down(s.counters[who])
    requires who.destroyed == s.destroyed[who] + if who.counter == 0 then 1 else 0
    requires kernel.autorefs == if who.counter == 0 then Removed(s.refs, who) else s.refs
    requires forall o :: o in objects && o != who ==> o.counter == s.counters[o] && o.destroyed == s.destroyed[o]
    ensures StoreOf(objects, kernel) == Drop(s, who)
  {
    hide Removed, Down;
    var before, after := s, StoreOf(objects, kernel);
    assert after.counters == before.counters[who := who.counter];
    assert after.destroyed == before.destroyed[who := who.destroyed];
  }
}
