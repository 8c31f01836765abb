/**
 * The ISC symbol table of lib/isc/symtab.c: a fixed number of buckets,
 * each a chain of (key, type, value) entries in insertion order, changed
 * in place by define and undefine. The undefine action is represented by
 * whether it is set and by a ghost log of the entries it was called with.
 */
module Symtab {
  import opened SymtabSpec

  /**
   * The arithmetic of one pass of hash()'s loop: shift the (already
   * lowered) character into the accumulator, and fold a set top nibble
   * back in. It computes exactly `Mix`; it exists only so that the body of
   * `Hash`'s loop stays cheap to verify.
   */
  method Mixing(h: bv32, c: bv32) returns (r: bv32)
    ensures r == Mix(h, c)
  {
    r := (h << 4) + c;
    var g := r & 0xf000_0000;
    if g != 0 {
      r := (r ^ (g >> 24)) ^ g;
    }
  }

  /** hash(): Weinberger's hash, a loop over the key updating a 32-bit accumulator. */
  method Hash(key: Key) returns (h: bv32)
    ensures h == HashSpec(key)
    ensures h & 0xf000_0000 == 0
  {
    h := 0;
    var i := 0;
    while i < |key|
      invariant 0 <= i <= |key|
      invariant h == HashSpec(key[..i])
    {
      var c := key[i];
      if IsUpper(c) {
        c := Lower(c);
      }
      h := Mixing(h, c as bv32);
      assert key[..i + 1][..i] == key[..i];
      i := i + 1;
    }
    assert key[..i] == key;
  }

  class SymbolTable<V(==)> {
    /** Number of buckets, fixed at creation. */
    const size: UInt32
    /** The bucket array; each element is one chain. */
    const buckets: array<seq<Entry<V>>>
    /** Whether an undefine action was given (undefine_action != NULL). */
    const hasAction: bool
    /** Every (key, type, value) the undefine action has been called with, in order. */
    ghost var log: seq<Entry<V>>

    ghost predicate Valid()
      reads this, buckets
    {
      0 < size && buckets.Length == size && WellFormed(buckets[..])
    }

    /** The INIT_LIST loop of isc_symtab_create: `size` empty buckets. */
    constructor Init(size: UInt32, hasAction: bool)
      requires size > 0
      ensures Valid() && fresh(buckets)
      ensures this.size == size && this.hasAction == hasAction
      ensures forall b :: 0 <= b < size ==> buckets[b] == []
      ensures log == []
    {
      var table := new seq<Entry<V>>[size];
      for i := 0 to size
        invariant forall j :: 0 <= j < i ==> table[j] == []
      {
        table[i] := [];
      }
      this.size := size;
      this.hasAction := hasAction;
      buckets := table;
      log := [];
    }

    /**
     * The FIND macro: bucket `hash(key) % size`, and the index in it of the
     * first entry matching (key, kind), or the chain's length when none does.
     */
    method Find(key: Key, kind: UInt32) returns (b: nat, i: nat)
      requires Valid()
      ensures b == Bucket(key, size) && b < buckets.Length
      ensures i <= |buckets[b]|
      ensures forall j :: 0 <= j < i ==> !Matches(buckets[b][j], key, kind)
      ensures i < |buckets[b]| ==> Matches(buckets[b][i], key, kind)
      ensures i == FirstMatch(buckets[b], key, kind)
    {
      var h := Hash(key);
      b := h as int % size;
      var chain := buckets[b];
      i := 0;
      while i < |chain| && !Matches(chain[i], key, kind)
        invariant i <= |chain|
        invariant forall j :: 0 <= j < i ==> !Matches(chain[j], key, kind)
      {
        i := i + 1;
      }
    }

    /** isc_symtab_lookup: the value of the first matching entry, or NotFound. */
    method Lookup(key: Key, kind: UInt32) returns (status: Status, value: Option<V>)
      requires Valid()
      ensures value == LookupIn(buckets[..], key, kind)
      ensures status == (if value.Some? then Success else NotFound)
    {
      var b, i := Find(key, kind);
      if i == |buckets[b]| {
        return NotFound, None;
      }
      status, value := Success, Some(buckets[b][i].value);
    }

    /**
     * isc_symtab_define: EXISTS if FIND matches, NOMEMORY if the allocator
     * refuses the entry (memoryAvailable is its answer), otherwise append
     * (key, kind, value) to the tail of the key's bucket.
     */
    method Define(key: Key, kind: UInt32, value: V, memoryAvailable: bool) returns (status: Status)
      requires Valid()
      modifies buckets
      ensures Valid()
      ensures old(FindIn(buckets[..], key, kind)).Some? ==>
        status == Exists && buckets[..] == old(buckets[..])
      ensures old(FindIn(buckets[..], key, kind)).None? && !memoryAvailable ==>
        status == NoMemory && buckets[..] == old(buckets[..])
      ensures old(FindIn(buckets[..], key, kind)).None? && memoryAvailable ==>
        status == Success && buckets[..] == Insert(old(buckets[..]), Entry(key, kind, value))
    {
      var b, i := Find(key, kind);
      if i < |buckets[b]| {
        return Exists;
      }
      if !memoryAvailable {
        return NoMemory;
      }
      InsertPreservesWellFormed(buckets[..], key, kind, value);
      buckets[b] := buckets[b] + [Entry(key, kind, value)];
      status := Success;
    }

    /**
     * isc_symtab_undefine: NotFound if FIND does not match; otherwise call
     * the undefine action with the matched entry and unlink it.
     */
    method Undefine(key: Key, kind: UInt32) returns (status: Status)
      requires Valid()
      modifies buckets, this`log
      ensures Valid()
      ensures old(FindIn(buckets[..], key, kind)).None? ==>
        status == NotFound && buckets[..] == old(buckets[..]) && log == old(log)
      ensures old(FindIn(buckets[..], key, kind)).Some? ==>
        status == Success
        && buckets[..] == Remove(old(buckets[..]), key, kind)
        && log == old(log) + (if hasAction then [old(FindIn(buckets[..], key, kind)).value] else [])
    {
      var b, i := Find(key, kind);
      if i == |buckets[b]| {
        return NotFound;
      }
      if hasAction {
        log := log + [buckets[b][i]];
      }
      RemovePreservesWellFormed(buckets[..], key, kind);
      buckets[b] := RemoveAt(buckets[b], i);
      status := Success;
    }

    /**
     * isc_symtab_destroy: call the undefine action on every entry, bucket
     * 0 to size - 1, each chain from head to tail.
     */
    method Destroy()
      requires Valid()
      modifies this`log
      ensures log == old(log) + (if hasAction then Flatten(buckets[..]) else [])
    {
      for i := 0 to size
        invariant log == old(log) + (if hasAction then Flatten(buckets[..i]) else [])
      {
        var chain := buckets[i];
        ghost var done := Flatten(buckets[..i]);
        for j := 0 to |chain|
          invariant log == old(log) + (if hasAction then done + chain[..j] else [])
        {
          if hasAction {
            assert chain[..j + 1] == chain[..j] + [chain[j]];
            log := log + [chain[j]];
          }
        }
        assert buckets[..i + 1][..i] == buckets[..i];
        assert Flatten(buckets[..i + 1]) == done + chain;
        assert chain[..|chain|] == chain;
      }
      assert buckets[..size] == buckets[..];
    }
  }

  /**
   * isc_symtab_create: NOMEMORY when the allocator refuses (memoryAvailable
   * is its answer), otherwise a fresh table of `size` empty buckets.
   */
  method Create<V(==)>(size: UInt32, hasAction: bool, memoryAvailable: bool)
    returns (status: Status, st: SymbolTable?<V>)
    requires size > 0
    ensures status == (if memoryAvailable then Success else NoMemory)
    ensures !memoryAvailable ==> st == null
    ensures memoryAvailable ==>
      st != null && fresh(st) && fresh(st.buckets) && st.Valid()
      && st.size == size && st.hasAction == hasAction && st.log == []
      && forall b :: 0 <= b < size ==> st.buckets[b] == []
  {
    if !memoryAvailable {
      return NoMemory, null;
    }
    st := new SymbolTable.Init(size, hasAction);
    status := Success;
  }

  /**
   * A client of the table, with each outcome verified from the contracts:
   * create a 7-bucket table without an undefine action, define "Foo" with
   * type 1, find it as "foo"/1 and as "FOO"/0, fail to define "foo"/1
   * again, undefine "foo"/1, and no longer find it.
   */
  method Scenario()
  {
    var created, st := Create<int>(7, false, true);
    assert created == Success;
    var foo: Key := [0x46, 0x6f, 0x6f];    // "Foo"
    var lower: Key := [0x66, 0x6f, 0x6f];  // "foo"
    var upper: Key := [0x46, 0x4f, 0x4f];  // "FOO"
    assert Lower(0x46) == 0x66 && Lower(0x4f) == 0x6f && Lower(0x6f) == 0x6f;
    assert CaseEqual(foo, lower) && CaseEqual(foo, upper);

    ghost var empty := st.buckets[..];
    assert empty[Bucket(foo, 7)] == [];
    var status := st.Define(foo, 1, 100, true);
    assert status == Success;
    LookupAfterInsert(empty, foo, 1, 100);
    ghost var one := st.buckets[..];
    assert one[Bucket(foo, 7)] == [Entry(foo, 1, 100)];

    LookupIgnoresCase(one, foo, lower, 1);
    var value;
    status, value := st.Lookup(lower, 1);
    assert status == Success && value == Some(100);

    LookupIgnoresCase(one, foo, upper, 0);
    status, value := st.Lookup(upper, 0);
    assert status == Success && value == Some(100);

    status := st.Define(lower, 1, 200, true);
    assert status == Exists;

    status := st.Undefine(lower, 1);
    assert status == Success;
    LookupAfterRemove(one, lower, 1);
    status, value := st.Lookup(lower, 1);
    assert status == NotFound;
  }
}
