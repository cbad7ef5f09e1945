# Auto-registering factory: the keyed registry

This project models the registry at the heart of `factory.h`. `Factory<T, TArgs...>` is a table
from C-string keys to creation functions. The table is a `std::map` ordered by the comparator
`cmp_cstr`, which is `strcmp(a, b) < 0`. The first registration of a key wins. A registered key
can be tested for, used to create an instance from the constructor arguments, or enumerated by
position in key order.

- `cstrings.dfy` (module `CStrings`): a key is the characters of a C string before its terminator,
  each read as `unsigned char` (1..255). `Strcmp` is `strcmp`, with the terminator taking part as 0.
  `Less` is `cmp_cstr::operator()`. `LexLess` is a non-recursive definition of lexicographic order.
  The lemmas prove that `Less` agrees with `LexLess` and is a strict total order in which a proper
  prefix comes first.
- `factory.dfy` (module `Factories`): the `std::map` is modelled by its in-order sequence of
  entries. The keys in it strictly increase under `Less`. `TableOf` turns the sequence into a Dafny
  `map`. `Find` is the map's `find`, a descent that compares with `Less`. `Insert` is the insertion
  `operator[]` performs for a missing key. The class `Factory<Args, T>` is one instantiation of the
  template: `Args` stands for the tuple of `TArgs...` and `T` for the base type. One object stands
  for the single process-wide registry of one instantiation in one run. Its field `entries`
  is the static map that `GetMap` returns, and it starts empty. `Register` changes it in place. The
  other operations are read-only functions, so they cannot change the table.
- `scenario.dfy` (module `AnimalRegistry`): a verified client. It registers `"Cat"` and `"Dog"`,
  creates an instance, misses on `"Fish"`, is refused on a second `"Cat"` registration and
  enumerates the keys in `strcmp` order. It also registers one type under two argument lists,
  in two independent registries.
- `wrappers.dfy`: `Option`. `None` stands for the null pointer returned by `Create` and
  `GetNameByIndex`.

The comment at `factory.h:14-15` mentions an Arduino assertion in `Create`; `Create` has none and
returns null on a miss (`factory.h:118`).

## Model

| member | source | states |
|---|---|---|
| `CStrings.Strcmp` | factory.h:36 | `strcmp` is zero exactly when the two keys have the same characters, so keys are identified by content; the result lies in -255..255 |
| `CStrings.Less` | factory.h:34-37 | `cmp_cstr(a, b)` holds iff `strcmp(a, b) < 0`; its contract gives that a key never orders before an equal key, and `LessIsLexicographic` gives the order's meaning |
| `CStrings.LessIsLexicographic` | factory.h:32-37 | `cmp_cstr(a, b)` holds iff `a` is lexicographically smaller: after a common prefix, either `a` ends first or its next character is smaller (both directions) |
| `CStrings.StrcmpAntisymmetric` | factory.h:36 | swapping the arguments of `strcmp` negates its result |
| `CStrings.LessIrreflexive` | factory.h:34-37 | no key orders before itself |
| `CStrings.LessAsymmetric` | factory.h:34-37 | if `a` orders before `b`, then `b` does not order before `a` |
| `CStrings.LessConnected` | factory.h:34-37 | two keys with different characters are ordered one way or the other |
| `CStrings.LessTransitive` | factory.h:34-37 | `cmp_cstr` is transitive |
| `CStrings.ProperPrefixFirst` | factory.h:36 | a proper prefix orders before the longer key |
| `Factories.TableOfKeys` | factory.h:62 | every entry's key is in the table, and every key of the table belongs to some entry |
| `Factories.TableOfSorted` | factory.h:62 | with strictly increasing keys, each entry's function is the one the table stores under its key, and the table has one key per entry |
| `Factories.Find` | factory.h:98 | `find` returns a position whose entry has exactly the searched key, or reports `end()` only when no entry has that key |
| `Factories.Insert` | factory.h:101 | inserting a missing key keeps the keys strictly increasing, adds one entry, and makes the table the old one with the new key mapped to the new function |
| `Factories.Factory.constructor` | factory.h:60-64 | the registry's map exists and is empty before any registration |
| `Factories.Factory.Register` | factory.h:95-105 | returns true iff the key was absent. On true, the table is the old one plus that key mapped to the given function, its size grows by one, and `Create` on the key applies that function. On false, the entries are exactly as before and `Create` on the key still applies the original function. No other key's entry changes |
| `Factories.Factory.GetCount` | factory.h:68-71 | the count is the number of distinct keys in the table |
| `Factories.Factory.IsRegistered` | factory.h:123-130 | true iff the table has an entry for the key |
| `Factories.Factory.Create` | factory.h:109-119 | for a registered key, the stored function applied to the arguments; for an unregistered key, null |
| `Factories.Factory.GetNameByIndex` | factory.h:76-90 | null iff the index is not below `GetCount()`. Otherwise it returns a registered key that has exactly `index` registered keys ordering before it, that is, the `index`-th key in ascending `cmp_cstr` order |
| `Factories.GetNameByIndexIncreasing` | factory.h:88-89 | successive indices give strictly increasing keys |
| `Factories.GetNameByIndexComplete` | factory.h:76-90 | every registered key is returned by `GetNameByIndex` at some index below `GetCount()` |

## Left out

- `RegisteredInFactory`, `_FACTORY_INIT` and the `FACTORY_INIT` macro (`factory.h:132-146`) exist
  only for C++ static-initialization order and to prevent dead-code elimination. Their one runtime
  effect is a single `Register(TClass::GetFactoryKey(), TClass::CreateInstance)` call. In the model
  that is a plain `Register` call, as in `scenario.dfy`.
- The lazily created function-local static map in `GetMap` (`factory.h:60-64`) is a storage-lifetime
  concern. Here it is a field that the constructor sets to empty.
- The `make_unique` shim and the choice between `T*` and `unique_ptr<T>` (`factory.h:17-29`) concern
  memory ownership. The created instance is an opaque value of type `T`.
- In the source a caller of `Create` cannot tell a null result of the stored function from a
  missing key: both come back as `nullptr` (`factory.h:116` and `factory.h:118`). The model
  returns `Some(v)` for the stored function's result `v` and `None` for a miss.
- The user-supplied `CreateInstance` and `GetFactoryKey` are not part of this model. Creation
  functions are arbitrary Dafny function values, and keys are arbitrary values.
- The map stores the caller's `const char*` pointer rather than a copy (`factory.h:101`). Keys are
  modelled by value, so pointer lifetime and aliasing are not captured.
- The Arduino branch of `GetNameByIndex` (`factory.h:78-81`) asserts `index < GetCount()` instead of
  returning null. Only the general branch is modelled.
- `GetNameByIndex` reaches its element by walking `index` steps with `std::next`. That is a cost
  concern only, so the model indexes the entry sequence directly.
- The balanced-tree layout of `std::map` is modelled by its in-order sequence of entries. Only the
  order and contents of the map are captured.
- `strcmp` guarantees only the sign of its result. The model returns the difference of the first
  differing characters, and nothing relies on more than the sign.
- `GetCount` returns an unbounded `nat`, not a `size_t`. The map cannot hold more entries than
  `size_t` counts, so no wrap-around can occur.
- Concurrency is left out. Registration is meant to run during static initialization; the source
  has no locking.
