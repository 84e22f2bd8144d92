# SnapGene file tools: the command line's block logic

The `sgff` command line reads a SnapGene container file into an object. The object has a header (the "cookie") and an insertion-ordered dictionary of blocks. Each block's key is a string `"type.index"`, and its value is the decoded payload. This project models the logic the command line runs on that dictionary, and proves properties of it. There are three commands' worth of logic:

- **`filter --keep 6,10`** (`cmd_filter`) reads the keep list with `[int(t.strip()) for t in keep.split(",")]`. It then builds a new object with the input's cookie. Finally it inserts, in iteration order, every block whose type `int(key.split(".")[0])` it keeps.
- **`info`** (`cmd_info`) counts the blocks per type prefix `key.split(".")[0]` in a dictionary. It then lists the prefixes in the order of `sorted(..., key=int)`, each with its count.
- **Key decomposition**: the text before the first `.`, read as a decimal integer.

Modules:

- `Results`: `Option`, and `Result`, whose `ValueError(literal)` stands for `int()` raising on `literal`.
- `OrderedDict`: a Python `dict` as a sequence of key/value pairs with distinct keys. `Get` is `d.get`/`d[k]`. `Set` is `d[k] = v`, which replaces the value in place or appends.
- `BlockKey`: `TypePrefix` is `key.split(".")[0]`, `ParseNat` is `int`, `RenderNat` is `str`, and `Render(t, i)` is the key `"t.i"`.
- `KeepList`: `str.split` and its inverse `Join`, `str.strip` (Python's `str.isspace` characters), and how the keep list is parsed.
- `Sgff`: `SgffObject`, a class with the fields `cookie` and `blocks` and the in-place `SetBlock`.
- `Filter`: the filter loop `FilterBlocks`, proved against the value-level `Filtered`, and the command `CmdFilter` with its error paths.
- `Info`: the counting loop `CountBlockTypes`, proved against `IsTypeCount`; the numeric sort; the report loop; and the command `CmdInfo`.

Each of the two loops is an imperative method over the object's fields. Its postcondition equals a specification function or predicate, and the lemmas prove the filter's and the counter's properties about those functions:
- exact membership;
- preserved order;
- unchanged keys and payloads;
- the header;
- idempotence;
- independence from the order, repetition and spacing of the keep items;
- exact per-type counts that add up to the number of blocks;
- duplicate-free, ascending and stable (and, for canonical type prefixes, strictly ascending) report order.

## Model

| member | source | states |
|---|---|---|
| BlockKey.TypePrefix | src/cli.py:47 | the prefix is the text of the key before its first '.', or the whole key when it has none: it is a prefix of the key, holds no '.', and is followed by '.' when shorter than the key |
| BlockKey.BlockType | src/cli.py:65 | `int(key.split(".")[0])` names a type exactly when the key's prefix is a digit string; `RenderedKeyType` shows that the key "t.i" names type t |
| BlockKey.ParseNat | src/cli.py:65 | `int` succeeds exactly on non-empty ASCII digit strings |
| BlockKey.ParseRenderNat | src/cli.py:65 | `int(str(n)) == n` for every natural number, and `str(n)` has no leading zeros |
| BlockKey.LeadingZeroIgnored | src/cli.py:65 | a leading zero does not change the integer read, so "06" and "6" name the same type |
| BlockKey.RenderedKeyType | src/cli.py:65 | the key "t.i" splits to the prefix `str(t)`, which reads back as type t and is canonical |
| KeepList.Split | src/cli.py:60 | `split(",")` yields at least one piece, none containing the separator, and joining the pieces with the separator gives the text back |
| KeepList.SplitJoin | src/cli.py:60 | splitting a join of separator-free pieces gives the pieces back |
| KeepList.TrimStart | src/cli.py:60 | `lstrip` removes exactly a leading run of whitespace and stops at a non-space |
| KeepList.TrimEnd | src/cli.py:60 | `rstrip` removes exactly a trailing run of whitespace and stops at a non-space |
| KeepList.Strip | src/cli.py:60 | the stripped text is no longer than the input and neither starts nor ends with whitespace |
| KeepList.StripPadded | src/cli.py:60 | stripping whitespace-padded text gives back exactly the unpadded text |
| KeepList.FirstUnparsed | src/cli.py:60 | locates the first item that `int` rejects: every earlier item parses and that one does not |
| KeepList.ParseItems | src/cli.py:60 | the comprehension succeeds exactly when every item parses, then yields each item's integer in order; otherwise it raises on the first item that does not parse |
| KeepList.ParseKeepList | src/cli.py:60 | the keep list of a text; `KeepListRoundTrip` shows that it reads back the numbers a comma-joined rendering was made of, and `KeepListIgnoresSpacing` that spacing around items does not matter |
| KeepList.KeepListIgnoresSpacing | src/cli.py:60 | keep texts whose items strip to the same texts yield the same keep list |
| KeepList.KeepListRoundTrip | src/cli.py:60 | a keep text of rendered numbers joined by commas parses back to exactly those numbers, in order and with repeats |
| OrderedDict.Get | src/cli.py:48 | `d.get(k)` finds a value exactly when k is a key, and then the value stored under k |
| OrderedDict.Keys | src/cli.py:46 | `d.keys()` lists one key per entry, in the dictionary's order |
| OrderedDict.GetOr | src/cli.py:48 | `d.get(k, default)` is the stored value when k is a key and `default` otherwise |
| OrderedDict.Set | src/cli.py:67 | `d[k] = v` keeps the key order (appending a new key at the end), stores v under k, leaves every other key's value, and keeps keys distinct |
| Sgff.SgffObject.constructor | src/cli.py:63 | `SgffObject(cookie=c)` has header c and no blocks |
| Sgff.SgffObject.SetBlock | src/cli.py:67 | `blocks[key] = value` updates the block dictionary as `Set` does, and nothing else |
| Filter.FirstUntyped | src/cli.py:65 | locates the first key whose prefix `int` rejects: every earlier key names a type and that one does not |
| Filter.Kept | src/cli.py:66 | whether a key's type is in the keep list; `FilteredOnlyKept` and `FilteredLookup` show that the filter keeps exactly those entries |
| Filter.Filtered | src/cli.py:64-67 | the filtered dictionary; `FilteredIsKeptSubsequence`, `FilteredLookup`, `FilteredDistinct`, `FilteredIdempotent` and `FilteredBySetOfTypes` state what it holds, and `FilterBlocks` that the loop builds it |
| Filter.FilteredIsKeptSubsequence | src/cli.py:64-67 | the filtered entries are the source entries at the kept positions, in ascending position order, copied unchanged; a position is kept exactly when its key's type is in the keep list |
| Filter.FilteredDistinct | src/cli.py:67 | the filtered dictionary has distinct keys |
| Filter.FilteredLookup | src/cli.py:64-67 | a key is in the filtered dictionary exactly when it is a source key whose type is kept, and then with its source payload; indices are not renumbered |
| Filter.FilteredLookupKept | src/cli.py:64-67 | a key found in the filtered dictionary is a source key of a kept type with the same payload |
| Filter.FilteredLookupFound | src/cli.py:64-67 | every source key of a kept type is in the filtered dictionary |
| Filter.FilteredOnlyKept | src/cli.py:66-67 | every filtered entry's type is in the keep list |
| Filter.FilteredIdempotent | src/cli.py:64-67 | filtering the filtered dictionary again with the same keep list changes nothing |
| Filter.FilteredKeepsAllKept | src/cli.py:64-67 | when the keep list covers every entry's type, the result is the source, entry for entry and in order |
| Filter.FilteredBySetOfTypes | src/cli.py:66 | keep lists with the same members filter alike, whatever their order and repetitions |
| Filter.KeepTypeSixExample | src/cli.py:64-67 | keeping type 6 of "0.0", "6.0", "6.1", "9.0" leaves exactly "6.0" and "6.1", in that order, with their payloads |
| Filter.FilterTurn | src/cli.py:66-67 | one loop turn inserts a kept entry as the filter's next entry, and leaves the result as it was for any other entry |
| Filter.FilterBlocks | src/cli.py:63-67 | the loop raises on the first key whose prefix is not an integer; otherwise it returns a new, valid object with the input's cookie whose blocks are exactly the filtered dictionary |
| Filter.CmdFilter | src/cli.py:60-67 | a keep item that does not parse raises first; then an untyped key raises; otherwise the result has the input's cookie and exactly the filtered blocks |
| Info.DedupMembers | src/cli.py:46-48 | the first-occurrence list of the prefixes holds each prefix once and nothing else |
| Info.CountOfAbsent | src/cli.py:48 | a prefix no key has counts zero, the `get(t, 0)` default |
| Info.Prefixes | src/cli.py:47 | the type prefix of every key, one per key and in key order |
| Info.Tally | src/cli.py:48 | `block_types[t] = block_types.get(t, 0) + 1` adds one to t's count, adds t at the end when new, and leaves the other counts |
| Info.CountStep | src/cli.py:46-48 | one loop turn turns an exact count of some keys into an exact count of those keys plus the next one |
| Info.CountStepValue | src/cli.py:48 | after one loop turn, each counted prefix holds its exact count over the keys seen so far |
| Info.CountBlockTypes | src/cli.py:45-48 | the loop leaves one entry per distinct prefix, in order of first occurrence, mapped to the number of keys with that prefix |
| Info.Value | src/cli.py:50 | the sort key `int(t)`; `ValueOfRendered` and `ValueIgnoresLeadingZero` state how it reads a prefix |
| Info.ValueOfRendered | src/cli.py:50 | `int(str(n)) == n` for the sort key |
| Info.ValueIgnoresLeadingZero | src/cli.py:50 | the sort key of a digit string does not change when a leading zero is added |
| Info.InsertAscending | src/cli.py:50 | inserting by value into an ascending list keeps it ascending |
| Info.InsertDistinct | src/cli.py:50 | inserting a new element into a duplicate-free list keeps it duplicate-free |
| Info.SortByValue | src/cli.py:50 | the sort returns a permutation of its input |
| Info.SortByValueSorts | src/cli.py:50 | the sort's result is ascending by integer value and duplicate-free when its input is |
| Info.InsertStable | src/cli.py:50 | inserting into an ascending list puts the element after every element of equal value and keeps the order of the rest |
| Info.SortByValueStableAt | src/cli.py:50 | for each value, the elements of that value appear in the sort's result in the order they have in its input |
| Info.SortByValueStable | src/cli.py:50 | the sort is stable, as Python's `sorted` is |
| Info.FirstNonNumeric | src/cli.py:50 | locates the first prefix that `int` rejects |
| Info.DedupFirstNonNumeric | src/cli.py:46-50 | the first non-integer prefix in dictionary order is the first in key order |
| Info.SortedByInt | src/cli.py:50 | `sorted(ts, key=int)` raises on the first non-integer element; otherwise it returns a permutation of ts that is ascending by value and keeps equal-valued elements in their order in ts |
| Info.TotalOfExactCounts | src/cli.py:50-51 | report lines with exact counts for distinct prefixes add up to the number of keys with one of those prefixes |
| Info.ReportLines | src/cli.py:50-51 | one report line per type in the sorted order, with `block_types[block_type]` as its count |
| Info.ReportIsExact | src/cli.py:45-51 | the report lists every prefix of the keys exactly once with its exact count, and the counts sum to the number of blocks |
| Info.NumericCounts | src/cli.py:50 | the counted prefixes are all integers exactly when every key's prefix is |
| Info.CanonicalStrictlyAscending | src/cli.py:50 | distinct prefixes without leading zeros, in ascending order, are in strictly ascending order |
| Info.ReportCanonical | src/cli.py:50 | when every key's prefix is canonical, so is every reported type |
| Info.Report | src/cli.py:50-51 | the sort and report raise on the first non-integer prefix; otherwise they list each prefix once with its exact count, in ascending numeric order (strictly ascending for canonical prefixes), equal-valued prefixes in the order they first occur among the keys, with counts summing to the number of blocks |
| Info.CmdInfo | src/cli.py:45-51 | the block summary of `info`, with the guarantees of `Report` for the blocks of the input |
| Info.NonCanonicalTie | src/cli.py:45-51 | for the keys "6.0" and "06.1", the report's guarantees leave exactly the lines ("6", 1) and ("06", 1), in that order, which have equal values, so the order is not strictly ascending |

## Left out

- `main` and its `argparse` set-up and dispatch (src/cli.py:74-108) are command-line plumbing.
- `cmd_parse` (src/cli.py:16-33) only converts to JSON and writes it out.
- All printing and file writing are left out (src/cli.py:40-43, 52, 71). That includes the cookie versions `info` prints and the `{block_type:>2}` padding. `CmdInfo` returns the (type, count) lines it would print.
- Reading and writing files are left out: `SgffReader.from_file` and `SgffWriter.to_file` (src/cli.py:18, 38, 57, 70). The reader, the writer and the internals of `SgffObject` are not part of this model. The header is an opaque `Cookie` value, and payloads are an opaque type parameter.
- Sgff.SgffObject.constructor: that `SgffObject(cookie=...)` starts with no blocks is assumed, because the class's source is not part of this model.
- BlockKey.ParseNat: `int` is modelled on ASCII digit strings only. A sign (`"-1"`, `"+6"`), `_` separators, non-ASCII digits and whitespace around a key's prefix are treated as errors, although Python's `int` accepts them. Conversely, CPython's `int` raises `ValueError` on a decimal string longer than `sys.get_int_max_str_digits()` digits (4300 by default, since CPython 3.11 and the 3.7 to 3.10 security releases); the model has no such limit and reads digit strings of any length. Keep-list items are stripped before parsing, as the source does. Types are therefore natural numbers.
- Python exceptions are values: the `ValueError` raised by `int` is `Result.ValueError(literal)`, raised on the strings `BlockKey.ParseNat` rejects (see the line above for where that differs from CPython). Exceptions from resource exhaustion, such as `MemoryError`, are not modelled.
- Info.CmdInfo: strict ascending order is stated only when every key's type prefix is canonical (no leading zeros), as it is for keys `"t.i"` rendered from numbers (`BlockKey.RenderedKeyType`). `cmd_info` counts by prefix *text*, so "6.0" and "06.1" give two lines, "6" and "06", with the same integer value (`Info.NonCanonicalTie`).

## Notes

- A keep list acts as a set of types: `Filter.FilteredBySetOfTypes` shows that only its members matter, not their order or repetitions.
- Strings are sequences of Unicode characters. `str.strip()` removes the characters for which Python's `str.isspace` holds: TAB to CR, FS to SPACE, U+0085, U+00A0, U+1680, U+2000 to U+200A, U+2028, U+2029, U+202F, U+205F and U+3000.
