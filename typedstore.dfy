/**
  The type-indexed store of `typedstore/src/lib.rs`: at most one value per
  type, looked up by the type alone.

  A Rust `TypeId` is an abstract equality type `Ty` here, and a
  `Box<dyn Any>` is a payload together with the type it was boxed at: the
  downcast in `get` succeeds exactly when that type is the one asked for.
*/
module TypedStore {
  import opened Wrappers

  /** `Box<dyn Any>`: a payload that remembers its concrete type. */
  datatype Boxed<Ty, V> = Boxed(tipe: Ty, payload: V)

  /** `downcast_ref::<T>()`: the payload when it was boxed at type `tipe`, else nothing. */
  function Downcast<Ty(==), V>(b: Boxed<Ty, V>, tipe: Ty): (r: Option<V>)
    ensures r.Some? <==> b.tipe == tipe
    ensures r.Some? ==> b == Boxed(tipe, r.value)
  {
    if b.tipe == tipe then Some(b.payload) else None
  }

  /** Every entry is stored under the type its box was made at. */
  ghost predicate KeyedByType<Ty, V>(values: map<Ty, Boxed<Ty, V>>)
  {
    forall k :: k in values ==> values[k].tipe == k
  }

  /**
    `get::<T>()` on the map: nothing for a type never set, otherwise the
    downcast of the entry, which cannot fail while entries are keyed by
    their own type (the source's `expect`).
  */
  function Lookup<Ty(==), V>(values: map<Ty, Boxed<Ty, V>>, tipe: Ty): (r: Option<V>)
    requires KeyedByType(values)
    ensures r.None? <==> tipe !in values
    ensures r.Some? ==> values[tipe] == Boxed(tipe, r.value)
  {
    if tipe in values then
      var d := Downcast(values[tipe], tipe);
      assert d.Some?;
      d
    else None
  }

  /** `set::<T>(val)` on the map: the box replaces any earlier value of that type. */
  function Insert<Ty(==), V>(values: map<Ty, Boxed<Ty, V>>, tipe: Ty, val: V): (r: map<Ty, Boxed<Ty, V>>)
    requires KeyedByType(values)
    ensures KeyedByType(r)
    ensures r.Keys == values.Keys + {tipe}
  {
    values[tipe := Boxed(tipe, val)]
  }

  /**
    After a set, getting the same type yields the value just set and getting
    any other type yields what it yielded before.
  */
  lemma LookupInsert<Ty, V>(values: map<Ty, Boxed<Ty, V>>, tipe: Ty, val: V, other: Ty)
    requires KeyedByType(values)
    ensures Lookup(Insert(values, tipe, val), tipe) == Some(val)
    ensures other != tipe ==> Lookup(Insert(values, tipe, val), other) == Lookup(values, other)
  {
  }

  /** Setting a type twice keeps only the later value. */
  lemma InsertOverwrites<Ty, V>(values: map<Ty, Boxed<Ty, V>>, tipe: Ty, v1: V, v2: V)
    requires KeyedByType(values)
    ensures Insert(Insert(values, tipe, v1), tipe, v2) == Insert(values, tipe, v2)
  {
  }

  /** Sets of different types do not interfere, in either order. */
  lemma InsertCommutes<Ty, V>(values: map<Ty, Boxed<Ty, V>>, t1: Ty, v1: V, t2: Ty, v2: V)
    requires KeyedByType(values) && t1 != t2
    ensures Insert(Insert(values, t1, v1), t2, v2) == Insert(Insert(values, t2, v2), t1, v1)
  {
  }

  class TypedStore<Ty(==), V> {
    var values: map<Ty, Boxed<Ty, V>>

    ghost predicate Valid()
      reads this
    {
      KeyedByType(values)
    }

    /** `TypedStore::new` and `new_typedstore`: an empty store. */
    constructor ()
      ensures Valid() && values == map[]
      ensures forall t :: Get(t) == None
    {
      values := map[];
    }

    /** `set::<T>(val)`: stores `val` under its type `tipe`, replacing an earlier one. */
    method Set(tipe: Ty, val: V)
      requires Valid()
      modifies this
      ensures Valid()
      ensures values == Insert(old(values), tipe, val)
      ensures Get(tipe) == Some(val)
      ensures forall t :: t != tipe ==> Get(t) == Lookup(old(values), t)
    {
      values := values[tipe := Boxed(tipe, val)];
    }

    /** `get::<T>()`: the value last set at type `tipe`, if any. */
    function Get(tipe: Ty): (r: Option<V>)
      reads this
      requires Valid()
      ensures r.None? <==> tipe !in values
      ensures r.Some? ==> values[tipe] == Boxed(tipe, r.value)
    {
      Lookup(values, tipe)
    }
  }

  /** The standard types stored by the crate's own examples. */
  datatype StdType = U8 | U64 | I8 | Str

  datatype StdValue = Byte(b: nat) | Word(w: nat) | Small(i: int) | Text(s: string)

  /**
    `can_store_std_types`: values of four different types are kept apart and
    read back unchanged. `getting_missing_value_returns_none`: on a new
    store a type never set reads as nothing, and after a set it reads back.
  */
  method StoreStdTypes() returns (byte: Option<StdValue>, word: Option<StdValue>,
                                  small: Option<StdValue>, text: Option<StdValue>,
                                  missing: Option<StdValue>, one: Option<StdValue>)
    ensures byte == Some(Byte(12)) && byte != Some(Byte(13)) && word == Some(Word(13))
    ensures small == Some(Small(8)) && text == Some(Text("test str"))
    ensures missing == None && one == Some(Byte(1))
  {
    var ts := new TypedStore<StdType, StdValue>();
    ts.Set(U8, Byte(12));
    ts.Set(U64, Word(13));
    ts.Set(I8, Small(8));
    ts.Set(Str, Text("test str"));
    byte := ts.Get(U8);
    word := ts.Get(U64);
    small := ts.Get(I8);
    text := ts.Get(Str);
    var empty := new TypedStore<StdType, StdValue>();
    missing := empty.Get(U8);
    empty.Set(U8, Byte(1));
    one := empty.Get(U8);
  }
}
