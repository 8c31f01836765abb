# ISC symbol table, modelled in Dafny

This project models the symbol table of ISC's `lib/isc/symtab.c`. The table
is a hash table with a fixed number of buckets, chosen at creation. Each bucket
is a chain of entries in insertion order. An entry holds a string key, an
unsigned `type` tag and an opaque value. Keys are compared ignoring ASCII
case. A query type of 0 is a wildcard that matches any stored type. The
operations are:

- `isc_symtab_create`: builds `size` empty buckets.
- `isc_symtab_lookup`: returns the value of the first matching entry.
- `isc_symtab_define`: appends a new entry unless a matching one exists.
- `isc_symtab_undefine`: calls the optional undefine action on the first
  matching entry, then unlinks it.
- `isc_symtab_destroy`: calls the action on every remaining entry.

Lookup, define and undefine rely on Weinberger's hash and on the shared
`FIND` scan; create and destroy do not hash.

The project has two modules:

- `SymtabSpec` (`symtab_spec.dfy`) holds the value-level definitions. Keys
  are sequences of non-NUL ASCII bytes. The case-insensitive comparison
  (`strcasecmp(...) == 0`) is `CaseEqual`. The hash is `HashSpec`, a fold of
  `Mix` over 32-bit bit-vectors. The `FIND` scan is `FirstMatch` and `FindIn`.
  What define, undefine and destroy do to the table is given by `Insert`,
  `Remove` and `Flatten`, with the table seen as a sequence of buckets. The
  lemmas about these are in the same module.
- `Symtab` (`symtab.dfy`) is the imperative model. It has the `Hash` loop
  and the class `SymbolTable`, whose bucket array (`array<seq<Entry<V>>>`)
  is changed in place by `Define` and `Undefine`. `Valid()` states the two
  table invariants:
  - every entry sits in bucket `hash(key) % size`;
  - no bucket holds two entries with case-insensitively equal keys and equal
    types.
  The undefine action is a flag saying whether it is set. Each call is
  recorded in a ghost `log` of the `(key, type, value)` entries it received.
  The module ends with `Scenario`, a client method whose calls (create a
  7-bucket table, then define, look up and undefine a key) are verified from
  the contracts alone.

The allocator's answer is an input, `memoryAvailable`. `Create` returns
`NoMemory` and no table whenever it is false. `Define` returns `NoMemory` and
changes nothing when it is false and FIND found no match; when FIND matches,
`Define` returns `Exists` before the allocator is consulted.

## Model

| member | source | states |
|---|---|---|
| `SymtabSpec.Lower` | lib/isc/symtab.c:127-129 | The result is never an upper-case letter. It differs from the input exactly when the input is upper-case, and then it is the input plus 'a' - 'A'. |
| `SymtabSpec.Mix` | lib/isc/symtab.c:130-134 | Whatever the accumulator was, one shift-add-fold step leaves its top nibble clear (`r & 0xf0000000 == 0`). |
| `SymtabSpec.HashSpec` | lib/isc/symtab.c:113-138 | The hash of every key has a clear top nibble, so it is below 2^28. |
| `SymtabSpec.HashIgnoresCase` | lib/isc/symtab.c:126-135 | Two keys that are equal ignoring ASCII case have the same hash. |
| `SymtabSpec.Bucket` | lib/isc/symtab.c:141 | The bucket index `hash(k) % size` is below `size`. |
| `SymtabSpec.FirstMatch` | lib/isc/symtab.c:142-146 | The scan stops at the first entry in chain order that matches `(t == 0 or type == t)` with a case-insensitively equal key. No earlier entry matches, and it returns the chain's length when nothing matches. |
| `SymtabSpec.FindIn` | lib/isc/symtab.c:140-146 | FIND finds nothing exactly when no entry of bucket `hash(k) % size` matches. Otherwise it returns an entry of that bucket that matches and has no matching entry before it. |
| `SymtabSpec.LookupIn` | lib/isc/symtab.c:158-166 | Lookup reports NotFound exactly when FIND finds nothing. Otherwise it returns the value of the entry FIND stopped at. |
| `SymtabSpec.LookupIgnoresCase` | lib/isc/symtab.c:140-146 | Lookups with keys that are equal ignoring case give the same answer. |
| `SymtabSpec.StoredMatchIsFound` | lib/isc/symtab.c:140-146 | In a well-formed table, a matching entry stored in any bucket makes FIND succeed. In particular, a type-0 query finds a key stored under any type. |
| `SymtabSpec.Insert` | lib/isc/symtab.c:191 | APPEND changes only bucket `hash(key) % size`. The number of buckets is unchanged. |
| `SymtabSpec.InsertPreservesWellFormed` | lib/isc/symtab.c:179-191 | A define that FIND lets through keeps both invariants: every entry is in its hash bucket, and no bucket has a duplicate (key ignoring case, type). |
| `SymtabSpec.LookupAfterInsert` | lib/isc/symtab.c:179-193 | After a successful define of (k, t, v), lookup(k, t) returns v, and the wildcard lookup(k, 0) finds an entry. |
| `SymtabSpec.InsertInvisible` | lib/isc/symtab.c:143-144 | A new entry that does not match a query leaves that query's lookup result unchanged. For example, lookup with a different non-zero type is unaffected. |
| `SymtabSpec.InsertAddsOne` | lib/isc/symtab.c:184-191 | A successful define adds exactly the new entry to the multiset of stored entries. |
| `SymtabSpec.RemoveAt` | lib/isc/symtab.c:211 | UNLINK removes exactly the entry at index i. The entries before i stay in place, the entries after i shift down by one and keep their order, and the multiset loses only that entry. |
| `SymtabSpec.Remove` | lib/isc/symtab.c:204-211 | Undefine changes at most bucket `hash(k) % size`. When FIND finds nothing, the table is unchanged. |
| `SymtabSpec.RemovePreservesWellFormed` | lib/isc/symtab.c:204-214 | Undefine keeps both table invariants. |
| `SymtabSpec.LookupAfterRemove` | lib/isc/symtab.c:204-214 | In a well-formed table, after undefine(k, t) with t != 0, lookup(k, t) finds nothing. |
| `SymtabSpec.RemoveTakesOne` | lib/isc/symtab.c:209-212 | A successful undefine removes exactly the entry FIND stopped at from the multiset of stored entries, and nothing else. |
| `SymtabSpec.FlattenContents` | lib/isc/symtab.c:95-104 | Destroy's walk visits an entry exactly when it is stored in some bucket. |
| `SymtabSpec.FlattenDistinct` | lib/isc/symtab.c:95-104 | In a well-formed table, destroy's walk never lists the same entry twice. |
| `Symtab.Mixing` | lib/isc/symtab.c:130-134 | The in-place shift, add and guarded fold compute `Mix`. |
| `Symtab.Hash` | lib/isc/symtab.c:113-138 | The loop computes `HashSpec(key)`, and the result's top nibble is clear. |
| `Symtab.SymbolTable.Init` | lib/isc/symtab.c:73-77 | The INIT_LIST loop gives `size` empty buckets in a fresh array. It stores the size and whether an action is set, with an empty callback log. |
| `Symtab.Create` | lib/isc/symtab.c:52-83 | Requires `size > 0`. On allocator refusal it returns NoMemory and no table. Otherwise it returns Success and a fresh valid table of `size` empty buckets with the given action. |
| `Symtab.SymbolTable.Find` | lib/isc/symtab.c:140-146 | The returned bucket is `hash(key) % size`. The returned index is the first matching entry of that chain, or the chain's length when none matches. The table is read, not changed. |
| `Symtab.SymbolTable.Lookup` | lib/isc/symtab.c:148-167 | Returns `LookupIn` of the current buckets: Success with the value, or NotFound. The table is not modified. |
| `Symtab.SymbolTable.Define` | lib/isc/symtab.c:169-194 | When FIND matches: Exists, table unchanged. When the allocator refuses: NoMemory, table unchanged. Otherwise: Success, and the buckets become `Insert(old, (key, type, value))`. The invariants hold in every case. |
| `Symtab.SymbolTable.Undefine` | lib/isc/symtab.c:196-215 | On a miss: NotFound, with buckets and log unchanged. On a hit: Success, the buckets become `Remove(old, key, type)`, and if an action is set the log gains exactly the entry FIND stopped at. The invariants hold in every case. |
| `Symtab.SymbolTable.Destroy` | lib/isc/symtab.c:95-104 | If an action is set, the log gains the entries of buckets 0 to size-1, each chain from head to tail. Otherwise the log is unchanged. |

## Left out

- Memory management (`isc_mem_get` / `isc_mem_put`, lib/isc/symtab.c:64-71,
  102, 105-108, 184, 212) is a foreign allocator. Allocation failure is the
  `memoryAvailable` input. Releasing entries, the bucket array and the table
  is not modelled, since Dafny has no deallocation.
- The `magic` sentinel and the `VALID_SYMTAB` checks (lib/isc/symtab.c:39-41,
  78, 107) are replaced by the `Valid()` precondition. Destroy does not make
  the object unusable afterwards. Consuming the handle (`*symtabp = NULL`) is
  not modelled.
- Symtab.Create: create's two allocations (the table and the bucket array)
  are folded into a single `memoryAvailable` answer.
- The undefine action's own side effects are unknown. Only its invocations
  are recorded, in the ghost `log`, and the model assumes the action does not
  re-enter the table.
- Keys are stored as values. The C code keeps the caller's `char *` pointer
  (lib/isc/symtab.c:187), which is a buffer-lifetime matter.
- Keys are restricted to non-NUL ASCII bytes. `isupper`/`tolower`/`strcasecmp`
  under other locales, and the signed `char` promotion of bytes 128 and up in
  `hash`, are implementation-defined. `strcasecmp(a, b) == 0` is modelled by
  its meaning on ASCII (`CaseEqual`), not by a character loop, because it is
  a C library routine and not part of this file.
- The NULL `value` out-parameter of lookup (lib/isc/symtab.c:163) is not
  modelled. Lookup always returns the value.
- SymtabSpec.LookupAfterRemove is stated only for a non-zero type. With type
  0, undefine removes only the first entry stored under the key, so a later
  wildcard lookup can still find an entry of another type. The source behaves
  this way by design.
- The table does no locking (lib/isc/symtab.c:44). Concurrent use is outside
  the model.
