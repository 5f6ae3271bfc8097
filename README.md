# Bencoded value tree, modelled in Dafny

This project models the in-memory data model of a bencoding library: the
closed set of value kinds (integer, byte string, list, dictionary), the byte
string class with its shared content buffer, the list class with
precondition-guarded access and Python-style negative-index slicing, and the
dictionary class, an ordered map whose keys are compared by their byte
content. Bencoding (the encoding of BEP 3, The BitTorrent Protocol
Specification) requires dictionary keys to appear sorted as raw strings; the
model proves that the dictionary's iteration order is that order and that it
is determined by the keys' contents alone.

Files and modules:

- `values.dfy`, module `BValues`: bytes (`uint8`), the `Value` datatype with
  its `Kind` tag, handles `Item = Option<Value>` (`None` is the null handle),
  and narrowing `As`, which stands for `as<T>()`.
- `bstring.dfy`, module `BStrings`: `StringBuffer` (the heap `std::string` a
  `ValueType` handle points to) and the `BString` class over it.
- `key_order.dfy`, module `KeyOrder`: `Less`, the `std::string` `operator<`
  the dictionary's comparator applies to key contents, and its order laws.
- `sorted_entries.dfy`, module `SortedEntries`: the ordered map as a strictly
  key-sorted sequence of entries, with insertion, removal, construction from
  a list of items, and the map each sequence denotes.
- `blist.dfy`, module `BLists`: index normalisation, the slice functions that
  specify `range` and `range_erase`, and the `BList` class over an
  `ItemVector` (the `std::vector` that `value()` hands out by reference).
- `bdictionary.dfy`, module `BDictionaries`: the comparator and the
  `BDictionary` class.
- `scenarios.dfy`, module `Scenarios`: the repository's demo program and the
  promised behaviours (setDefault twice, erase twice, aliasing through
  `value()`, buffer sharing, content-keyed lookup), each replayed against
  the contracts alone.

Behaviour follows the code where a reader might expect otherwise:

- `BDictionary::create(items)` keeps the FIRST of several items with equal
  key content. Range insertion into `std::map` skips keys already present,
  so later duplicates do not overwrite. The C++ standard leaves unspecified
  which of several equivalent keys a range insertion keeps (LWG issue 2844);
  keeping the first is what libstdc++ and libc++ do, and the model follows
  them.
- `hasKey` is true for a key mapped to the null handle (an entry left by
  `operator[]`), because it only tests `find(key) != end()`.
- `setItem` asserts `idx <= size()`, but the `operator[]` it calls asserts
  `idx < size()`, so the model requires `idx < size()`.
- `range_erase` is defined in `src/BList.cpp` though `include/BList.h` does
  not declare it; the model follows the definition.

Key-handle overloads (`hasKey(key)`, `erase(key)`, `getValue<T>(key)`, ...)
take a `BString` and use its content. Each `std::string` overload is modelled
as the source writes it: it makes a fresh `BString` holding the bytes and
calls the key overload.

## Model

| member | source | states |
|---|---|---|
| `BValues.As` | include/BList.h:74-77 | narrowing yields the value itself exactly when its kind is the requested one, and the null handle otherwise |
| `BStrings.BString.FromString` | src/BString.cpp:30-32 | `create(std::string)` gives a string whose content is the given bytes, held in a freshly allocated buffer |
| `BStrings.BString.FromBuffer` | src/BString.cpp:26-28 | `create(ValueType)` adopts the caller's buffer handle itself, so the content is that buffer's |
| `BStrings.BString.Value` | src/BString.cpp:37-39 | `value()` returns the very buffer handle held, whose bytes are the current content |
| `BStrings.BString.SetBuffer` | src/BString.cpp:44-46 | `setValue(ValueType)` adopts the given handle; the content becomes that buffer's |
| `BStrings.BString.SetValue` | src/BString.cpp:48-50 | `setValue(std::string)` installs a fresh buffer holding the bytes; a handle obtained earlier keeps the old content |
| `BStrings.BString.Length` | src/BString.cpp:55-57 | `length()` is the byte count of the current content and is never negative |
| `KeyOrder.LessIrreflexive` | src/BDictionary.cpp:21-26 | no key sorts before itself |
| `KeyOrder.LessTransitive` | src/BDictionary.cpp:21-26 | the key order is transitive |
| `KeyOrder.LessTotal` | src/BDictionary.cpp:21-26 | any two different contents are ordered one way or the other |
| `KeyOrder.LessAsymmetric` | src/BDictionary.cpp:21-26 | two keys never sort before each other |
| `KeyOrder.EquivalentIffEqual` | src/BDictionary.cpp:21-26 | two keys are equivalent under the comparator (neither is less) if and only if their contents are equal |
| `KeyOrder.LessIsLexicographic` | src/BDictionary.cpp:21-26 | the comparator is lexicographic byte order: a proper prefix sorts first, otherwise the first differing byte decides |
| `SortedEntries.InsertCorrect` | src/BDictionary.cpp:78-80 | inserting or assigning a key keeps the entries strictly sorted, maps that key to the new handle and keeps every other entry; the count grows by one exactly when the key was absent |
| `SortedEntries.RemoveCorrect` | src/BDictionary.cpp:92-94 | removing a key keeps the entries sorted and removes exactly that key; the count drops by one exactly when it was present |
| `SortedEntries.SortedSize` | src/BDictionary.cpp:57-59 | a sorted entry sequence has exactly one entry per key of its map |
| `SortedEntries.SortedUnique` | src/BDictionary.cpp:108-117 | two sorted entry sequences with the same mapping are equal: iteration order depends only on the keys' contents, not on insertion order |
| `SortedEntries.FromItemsCorrect` | src/BDictionary.cpp:36-37 | building from a list of items yields sorted entries denoting the first-occurrence map of the items |
| `SortedEntries.FirstOccurrenceWins` | src/BDictionary.cpp:36-37 | of several items with equal keys, the map keeps the value of the first |
| `SortedEntries.ValuesInKeyOrder` | src/BDictionary.cpp:96-103 | the handles of a sorted sequence are listed by ascending key: position `i` holds the handle of the `i`-th smallest key |
| `BLists.Normalize` | src/BList.cpp:159-164 | a non-negative bound is kept, a negative one lands before the end, and the normalised bound is a valid slice bound exactly when the original lies in `[-n, n]` |
| `BLists.RangeAndEraseSplit` | src/BList.cpp:133-171 | `range(s, e)` and `range_erase(s, e)` cover the same positions: what range copies and what range_erase keeps together make up the list, in order and as a multiset |
| `BLists.RangeToEnd` | src/BList.cpp:151-153 | `range(s)` is the suffix from the normalised `s`, of length `-s` for negative `s` |
| `BLists.EightItemExamples` | src/test.cpp:107-113 | on eight items `range(0, -1)` has the first seven, `range(-4)` the last four, and `range_erase(-3, -1)` leaves six |
| `BLists.RangeAssertsAdmitOutOfBounds` | src/BList.cpp:166-167 | the assertions of `range` accept `range(0, 9)` and `range(-9, -1)` on eight items, which lie outside the list |
| `BLists.SliceOkIsAssertsPlusBounds` | src/BList.cpp:166-169 | a safe slice is exactly the two asserted conditions plus `0 <= s` and `e <= size` |
| `BLists.BList.Create` | src/BList.cpp:33-35 | `create()` gives an empty list with a vector of its own |
| `BLists.BList.CreateFrom` | src/BList.cpp:40-42 | `create(items)` gives a list holding `items` in order |
| `BLists.BList.Value` | src/BList.cpp:44-46 | `value()` returns the list's own vector, so a change through it is a change to the list |
| `BLists.BList.Size` | src/BList.cpp:55-57 | `size()` is the number of handles |
| `BLists.BList.Empty` | src/BList.cpp:64-66 | `empty()` holds exactly when there are no handles |
| `BLists.BList.Clear` | src/BList.cpp:48-50 | `clear()` leaves the list empty |
| `BLists.BList.PushBack` | src/BList.cpp:74-78 | `push_back(x)` requires a non-null handle and appends it; a list without null handles stays so |
| `BLists.BList.PopBack` | src/BList.cpp:88-92 | `pop_back()` requires a non-empty list and drops the last handle |
| `BLists.BList.Front` | src/BList.cpp:100-104 | `front()` requires a non-empty list and returns its first handle |
| `BLists.BList.Back` | src/BList.cpp:191-195 | `back()` requires a non-empty list and returns its last handle |
| `BLists.BList.At` | src/BList.cpp:106-110 | `operator[](idx)` requires `idx < size()` and returns handle `idx` |
| `BLists.BList.GetItem` | include/BList.h:74-77 | `getItem<T>(idx)` returns handle `idx` when its value has kind `T`, and null otherwise |
| `BLists.BList.SetItem` | include/BList.h:79-82 | `setItem(idx, item)` replaces position `idx` only, null handles included; size and all other positions are unchanged |
| `BLists.BList.Shuffle` | src/BList.cpp:112-116 | `shuffle()` keeps the size and the multiset of handles |
| `BLists.BList.Extend` | src/BList.cpp:124-127 | `extend(b)` makes the list its old contents followed by `b`'s, and leaves `b` unchanged |
| `BLists.BList.Range` | src/BList.cpp:154-171 | `range(s, e)` returns a new list: empty for an empty list, otherwise the handles in the normalised half-open slice `[s, e)` |
| `BLists.BList.RangeFrom` | src/BList.cpp:151-153 | `range(s)` is `range(s, size())` |
| `BLists.BList.RangeErase` | src/BList.cpp:133-149 | `range_erase(s, e)` changes nothing on an empty list or when the normalised `e <= s`, and otherwise leaves the handles before `s` followed by those from `e` on |
| `BLists.BList.RangeEraseFrom` | src/BList.cpp:129-131 | `range_erase(s)` is `range_erase(s, size())` |
| `BDictionaries.ByValueLess` | src/BDictionary.cpp:21-26 | the comparator orders two key handles by their contents, and totally so |
| `BDictionaries.BDictionary.Create` | src/BDictionary.cpp:42-44 | `create()` gives an empty dictionary |
| `BDictionaries.BDictionary.CreateFrom` | src/BDictionary.cpp:49-52 | `create(items)` gives a sorted dictionary holding the first-occurrence map of the items |
| `BDictionaries.BDictionary.Size` | src/BDictionary.cpp:57-59 | `size()` is the number of keys |
| `BDictionaries.BDictionary.Empty` | src/BDictionary.cpp:66-68 | `empty()` holds exactly when there are no keys |
| `BDictionaries.BDictionary.Iterate` | src/BDictionary.cpp:108-117 | iteration from `begin()` to `end()` yields one entry per key, in strictly ascending key order |
| `BDictionaries.BDictionary.Index` | src/BDictionary.cpp:78-80 | `operator[](key)` inserts the null handle on a miss and changes nothing on a hit; either way it gives the handle now stored |
| `BDictionaries.BDictionary.IndexStr` | src/BDictionary.cpp:82-85 | the string overload of `operator[]` behaves like the key overload on that content |
| `BDictionaries.BDictionary.Erase` | src/BDictionary.cpp:92-94 | `erase(key)` returns 1 and removes exactly that entry when present, and returns 0 and changes nothing when absent |
| `BDictionaries.BDictionary.EraseStr` | src/BDictionary.cpp:87-90 | the string overload of `erase` behaves like the key overload on that content |
| `BDictionaries.BDictionary.Values` | src/BDictionary.cpp:96-103 | `values()` requires every stored handle to be non-null and returns a new list of the handles in ascending key order, one per key |
| `BDictionaries.BDictionary.HasKey` | src/BDictionary.cpp:170-177 | `hasKey(key)` is true exactly when an entry with equal content exists, null-valued or not, and changes nothing |
| `BDictionaries.BDictionary.HasKeyStr` | src/BDictionary.cpp:165-168 | the string overload of `hasKey` behaves like the key overload on that content |
| `BDictionaries.BDictionary.SetValue` | include/BDictionary.h:145-147 | `setValue(key, v)` maps the key to `v`, keeps every other entry, and grows the size exactly when the key was absent |
| `BDictionaries.BDictionary.SetValueStr` | include/BDictionary.h:149-151 | the string overload of `setValue` behaves like the key overload on that content |
| `BDictionaries.BDictionary.SetDefault` | src/BDictionary.cpp:156-163 | `setDefault(key, v)` stores and returns `v` when the key is absent or null-valued, and otherwise returns the stored handle and changes nothing |
| `BDictionaries.BDictionary.SetDefaultStr` | src/BDictionary.cpp:151-154 | the string overload of `setDefault` behaves like the key overload on that content |
| `BDictionaries.BDictionary.GetValue` | include/BDictionary.h:102-109 | `getValue<T>(key)` is null for an absent key, and otherwise the stored value narrowed to `T`; it changes nothing |
| `BDictionaries.BDictionary.GetValueStr` | include/BDictionary.h:96-100 | the string overload of `getValue<T>` behaves like the key overload on that content |
| `BDictionaries.BDictionary.GetValueOr` | include/BDictionary.h:117-124 | `getValue<T>(key, d)` returns `d` for an absent key; for a present key it returns the stored value narrowed to `T`, which is null rather than `d` on a kind mismatch |
| `BDictionaries.BDictionary.GetValueOrStr` | include/BDictionary.h:111-115 | the string overload of `getValue<T>(key, d)` behaves like the key overload on that content |
| `Scenarios.ListDemo` | src/test.cpp:76-113 | the demo's list sizes are 8 after two extends, 7 for `range(0, -1)`, 4 for `range(-4)` and 6 after `range_erase(-3, -1)` |
| `Scenarios.SetDefaultTwice` | src/BDictionary.cpp:151-163 | a second `setDefault` on the same key returns the first value and adds nothing |
| `Scenarios.EraseTwice` | src/BDictionary.cpp:87-94 | erasing a set key counts 1, erasing it again counts 0, and the key is then absent |
| `Scenarios.TwoEntriesInOrder` | src/BDictionary.cpp:96-103 | the stored handles of a dictionary holding two keys are listed smaller key first, whatever order the keys were inserted in |
| `Scenarios.AssignReadErase` | src/test.cpp:71-74 | assigning a handle under an absent key through `operator[]` reads back that handle, and erasing the key leaves the dictionary's mapping as it was |
| `Scenarios.LookupDemo` | src/test.cpp:54-117 | after filling "key2" and "key3" with `setDefault` (and assigning and erasing "key4"), `values()` is exactly the two stored strings in key order, `getValue<BString>` finds the stored one, and a lookup with a default on a missing key yields the default |
| `Scenarios.ValueAliasesList` | src/BList.cpp:44-46 | an assignment through the vector `value()` returned changes the list |
| `Scenarios.BufferSharing` | src/BString.cpp:44-50 | a handle read before `setValue(std::string)` keeps the old bytes; a string made from a caller's buffer sees that buffer's later changes |
| `Scenarios.SameContentSameEntry` | include/BDictionary.h:32-37 | two distinct key handles with equal content address the same entry |

## Left out

- The visitor (`accept` and `BItemVisitor`): only the closed kind set is modelled, as the `Kind` tag of `Value`.
- `BInteger` is not part of this model beyond the `Int` case; its integer is unbounded, with no 64-bit range.
- Shared ownership of value handles: containers store `Value` snapshots, so a change made through one alias of a value is not seen through another. Lifetimes, `unique_ptr`/`shared_ptr` ownership and iterator or reference invalidation are not modelled.
- `operator[]` on either container returns a mutable reference; the model splits it into a read (`At`, `Index`) and the writes the source makes through it (`SetItem`, `SetValue`).
- Dictionary keys are stored as copies of their bytes, so mutating a `BString` that is already a key (which silently breaks the map's ordering in the source) cannot be expressed. Null key handles are not modelled either.
- The iterator types (`begin`, `end`, `cbegin`, `cend` and the `const` overloads) are modelled as one `Iterate` that returns the entries in iteration order; the `const` overloads of `front` and `back` behave like the others.
- `reserve` capacity growth in `extend` has no observable effect and is left out.
- `int`, `size_t` and `int64_t` are unbounded integers: the wrap-around of `size() + s_idx` and of `e_idx - s_idx` for huge lists, and the narrowing of `length()` to `int64_t`, are not modelled.
- `src/Literals.cpp` and `include/Literals.h` are literal-syntax sugar and are not part of this model.
- The `List` and `Dict` payloads of `Value` are untyped content snapshots of nested containers: they are not tied to `BList` or `BDictionary`, and a `Dict` payload is not required to have sorted or distinct keys, which a dictionary in the source always has.
- A null `ValueType` buffer is not modelled: `BString` always holds a buffer object, though the source accepts a null one in `create(ValueType)` and `setValue(ValueType)` and `value()`, `length()` and the comparator later dereference it.
- BLists.BList.Shuffle: the time-seeded random engine is replaced by a sequence of raw draws passed in, and the contract states only that the result is a permutation, not that it is uniformly distributed.
- BLists.BList.RangeErase: the source checks nothing; the model requires `0 <= s` and `e <= size()` after normalisation whenever something is to be erased, since erasing outside the vector is undefined.
- BDictionaries.BDictionary.GetValueOr: the default is required to be null or of the requested kind, which the source's `std::shared_ptr<T>` parameter type guarantees.

## Findings

| source | as written | input that shows it | evidently intended | confidence | as-written member | corrected member |
|---|---|---|---|---|---|---|
| src/BList.cpp:166-167 | `range(s, e)` asserts only `s <= size()` and `s <= e` after normalisation | `range(0, 9)` or `range(-9, -1)` on a list of eight handles passes both assertions and copies from outside the vector | also reject a normalised `s < 0` or `e > size()` | not executed | `BLists.RangeAssertsAdmitOutOfBounds` | `BLists.BList.Range` |
