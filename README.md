# CobbleDB memtable write path, in Dafny

This project models the in-memory write path of CobbleDB, an LSM key-value engine written in Rust. It has three parts:

- **The comparator** (`src/cmp.rs`). The `Cmp` trait is modelled as a record `Cmp.Comparator` holding a `cmp` function and an `id` string. Its only implementation, `DefaultCmp`, is `Cmp.DefaultCmp`. Its `cmp` is `Cmp.Compare`, the lexicographic order of byte slices. Its `id` is the constant `Cmp.DEFAULT_CMP_ID`, `"CobbleDB.BytewiseComparator"`.
- **The key codec** (`src/key_types.rs`). It has these pieces:
  - the tag `msn << 8 | type` (`KeyTypes.PackTag`) and its parser (`KeyTypes.ParseTag`);
  - the LevelDB-style memtable key `varint(len(key) + 8) ++ key ++ tag` (`KeyTypes.EncodeMemtableKey`);
  - `build_memtable_key` and `QueryKey::new_raw`. Each is a method that fills a zeroed array through a moving cursor (`KeyTypes.WriteAll`, `WriteVarint`, `WriteFixed64`). The method proves that every write fits and that the cursor ends exactly at the end of the buffer;
  - the three views of a `QueryKey`;
  - `cmp_memtable_key`, which orders memtable keys by user key and then by descending sequence number.
- **The memtable** (`src/memtable.rs`). `Memtable.MemTable` is a class with two fields:
  - the map from encoded keys to values (`records`);
  - the ascending view of the keys that the ordered map keeps (`keys`).

  `Put` changes both in place, and `Len`, `Get` and `Iter` only read them.

The `integer_encoding` crate is replaced by specification functions in module `Encoding`:
- unsigned LEB128 varints (`Varint`, `DecodeVarint`, `VarintLen` for `required_space`);
- little-endian fixed-width integers (`Fixed64`, `DecodeFixed64`).

Both `write_varint` and `write_fixedint` encode into a scratch buffer and then call `write_all`, and the model writes them the same way. A sequence number (`MSN`, `src/defines.rs`) is a `u64`, a natural below 2^64. In `msn << 8`, the top eight bits are lost, and the model writes this out as `(msn * 256) % 2^64` (`KeyTypes.ShiftLeft8`). The low byte of the shifted value is zero, so `| type` is the same as adding the type byte.

### Where the code and its design description differ (the model follows the code)

- **Table order.** The table's order is the raw bytewise order of the encoded keys, because the `BTreeMap` is keyed by `&[u8]`. It is not the memtable-key order. The tag is little-endian, so its first byte is the mutation type:
  - for one user key, every deletion sorts before every insertion (`Memtable.DeleteSortsBeforeInsert`);
  - inserts with sequence numbers 1 and 2 iterate oldest first (`Memtable.OlderIteratesFirst`).

  The intended "newest first" order holds only for `cmp_memtable_key` (`KeyTypes.NewerSortsFirst`), and nothing in the table uses that function.
- **`get`.** `get` is a stub that returns `(None, false)` for every query. A tombstone is therefore never reported.
- **Decoding.** The code has no separate decode function; `cmp_memtable_key` slices its inputs directly. `KeyTypes.DecodeMemtableKey` slices a key the same way, into the user key and the eight tag bytes, but returns `None` where that slicing would go out of bounds. `KeyTypes.WellFormed` is the precondition of the comparison functions.

## Model

| member | source | states |
|---|---|---|
| `Cmp.CompareFirstDifference` | src/cmp.rs:19-21 | the first byte at which two slices differ decides `cmp` |
| `Cmp.CompareProperPrefix` | src/cmp.rs:19-21 | a proper prefix is Less than any longer slice that extends it, and that slice is Greater than it |
| `Cmp.CompareCommonPrefix` | src/cmp.rs:19-21 | a shared prefix does not change the result of `cmp` |
| `Cmp.CompareEqualIff` | src/cmp.rs:19-21 | `cmp(a, b)` is Equal exactly when `a` and `b` are the same bytes |
| `Cmp.CompareReverse` | src/cmp.rs:19-21 | `cmp(b, a)` is the reverse of `cmp(a, b)` |
| `Cmp.CompareTransitive` | src/cmp.rs:19-21 | Less is transitive |
| `Cmp.CompareLessIff` | src/cmp.rs:19-21 | `cmp` is Less exactly when dictionary order (proper prefix, or smaller at the first difference) puts `a` first |
| `Cmp.DefaultCmpEqualIff` | src/cmp.rs:16-25 | `DefaultCmp`'s `cmp` is the slice order, and its Equal is identity of bytes |
| `Cmp.DefaultCmpIsTotalOrder` | src/cmp.rs:16-25 | `DefaultCmp` is a total order: swapping the arguments reverses the result, "not Greater" is transitive, and Equal is identity |
| `Encoding.VarintLen` | src/key_types.rs:53 | `required_space` is at least 1, and it is 1 exactly for values below 128 |
| `Encoding.Varint` | src/key_types.rs:57 | the varint is `required_space` bytes long; the continuation bit is set on every byte but the last |
| `Encoding.DecodeVarint` | src/key_types.rs:125-126 | a decoded varint reports a width between 1 and the input length |
| `Encoding.DecodeVarintOfVarint` | src/key_types.rs:57 | decoding a varint gives back its value and width, whatever bytes follow it |
| `Encoding.VarintInjective` | src/key_types.rs:57 | varints of different values differ, even when other bytes follow them |
| `Encoding.FromLittleEndianOfLittleEndian` | src/key_types.rs:61 | writing `x` little-endian in `w` bytes and reading it back gives `x` mod 256^w |
| `Encoding.LittleEndianOfFromLittleEndian` | src/key_types.rs:134 | reading bytes as a little-endian number and writing it back gives the same bytes |
| `Encoding.Fixed64RoundTrip` | src/key_types.rs:61 | the eight-byte little-endian form of a `u64` reads back as the same `u64`, and every eight-byte string is the form of the number it reads as |
| `KeyTypes.ShiftLeft8` | src/key_types.rs:61 | `x << 8` on a `u64` drops the top eight bits of `x` |
| `KeyTypes.PackTag` | src/key_types.rs:61 | the low byte of the tag is the mutation type's byte |
| `KeyTypes.ParseTag` | src/key_types.rs:85-94 | the parsed sequence number is below 2^56; the type is Delete exactly when the low byte is 0, and Insert for every other byte |
| `KeyTypes.ParseTagOfPackTag` | src/key_types.rs:85-94 | parsing a packed tag gives back the type and the sequence number mod 2^56, so a sequence number below 2^56 comes back unchanged |
| `KeyTypes.PackTagOfParseTag` | src/key_types.rs:85-94 | every tag whose low byte is 0 or 1 is the packing of what it parses to |
| `KeyTypes.PackTagMonotonic` | src/key_types.rs:112 | for sequence numbers below 2^56, a larger sequence number gives a larger tag, whatever the two types |
| `KeyTypes.EncodeMemtableKey` | src/key_types.rs:96-117 | a memtable key is `required_space(len(key) + 8) + len(key) + 8` bytes long |
| `KeyTypes.WriteAll` | src/key_types.rs:111 | `write_all` puts the data at the cursor, advances the cursor past it and changes nothing else; every caller proves there is room |
| `KeyTypes.WriteVarint` | src/key_types.rs:110 | `write_varint` puts the varint at the cursor and advances the cursor by its width |
| `KeyTypes.WriteFixed64` | src/key_types.rs:112-113 | `write_fixedint` puts the eight little-endian bytes at the cursor and advances the cursor by 8 |
| `KeyTypes.BuildMemtableKey` | src/key_types.rs:96-117 | the result is exactly LEB128(len(k) + 8), then k, then the eight little-endian bytes of the tag, of the length above; the buffer is used up, so the three `expect`s and the `assert_eq!` cannot fail |
| `KeyTypes.QueryKey.NewRaw` | src/key_types.rs:50-69 | the query key holds the same bytes as `build_memtable_key(k, t, msn)` and the key offset is the varint's width. `client_key()` is `k`, and `internal_key()` is `k` followed by the tag bytes |
| `KeyTypes.QueryKey.New` | src/key_types.rs:45-47 | `QueryKey::new` builds the query key of an Insert |
| `KeyTypes.QueryKeyViews` | src/key_types.rs:71-81 | on a key built from `k`, `client_key()` is exactly `k` and `internal_key()` is `k` followed by the tag, `len(k) + 8` bytes |
| `KeyTypes.DecodeMemtableKeyBounds` | src/key_types.rs:125-128 | the user key and the eight tag bytes that `cmp_memtable_key` slices lie one after the other inside the key, after a varint of at least one byte |
| `KeyTypes.DecodeWithTail` | src/key_types.rs:125-128 | after the varint of `len(k) + 8` and the user key `k`, any eight bytes are read back as the tag bytes and `k` as the user key |
| `KeyTypes.DecodeOfEncode` | src/key_types.rs:125-134 | reading an encoded key gives back length `len(k) + 8`, offset `required_space`, user key `k` and the eight bytes of the tag, which `decode_fixed` reads as the tag that was packed |
| `KeyTypes.DecodeVarintOfTruncated` | src/key_types.rs:125-126 | a varint cut before its last byte does not decode |
| `KeyTypes.DecodeOfTruncated` | src/key_types.rs:125-128 | every proper prefix of an encoded key is rejected as malformed, never read out of bounds |
| `KeyTypes.EncodeInjective` | src/key_types.rs:96-117 | equal memtable keys have the same user key and type, and sequence numbers equal mod 2^56 |
| `KeyTypes.CmpMemtableKeyOnEncoded` | src/key_types.rs:120-142 | on encoded keys, the result is the user-key comparator's result when that is not Equal; otherwise the sequence numbers (mod 2^56) are compared in descending order |
| `KeyTypes.SameUserKeyOrder` | src/key_types.rs:133-140 | for any comparator that calls a user key Equal to itself, two records of that key are ordered by descending sequence number (below 2^56), whatever their types |
| `KeyTypes.NewerSortsFirst` | src/key_types.rs:133-140 | under `DefaultCmp`, for one user key the record with the larger sequence number sorts first, and equal sequence numbers are Equal whatever the types |
| `KeyTypes.AsWrittenAgreesOnEqualOffsets` | src/key_types.rs:125-141 | when both varints have the same width, the comparison as written gives the intended result |
| `KeyTypes.AsWrittenAgreesUnderDefaultCmp` | src/key_types.rs:125-141 | under `DefaultCmp`, the comparison as written gives the intended result on every pair of encoded keys |
| `KeyTypes.AsWrittenMisreadsTag` | src/key_types.rs:135 | if the comparator calls two user keys Equal but their varints differ in width, the comparison as written slices b's tag to the wrong length and has no result |
| `KeyTypes.AsWrittenCounterexample` | src/key_types.rs:135 | a concrete comparator and pair of keys on which the comparison as written fails while the corrected one returns Greater |
| `KeyTypes.CmpMemtableKeyReverse` | src/key_types.rs:120-142 | if the user-key comparator is a total preorder, swapping the memtable keys reverses the result |
| `KeyTypes.CmpMemtableKeyTransitive` | src/key_types.rs:120-142 | if the user-key comparator is a total preorder, Less on memtable keys is transitive |
| `Memtable.MemTable.constructor` | src/memtable.rs:36-40 | a new table is empty, so its length is 0 |
| `Memtable.MemTable.Len` | src/memtable.rs:42-44 | `len` is the number of stored records |
| `Memtable.MemTable.Put` | src/memtable.rs:54-56 | afterwards the map sends `build_memtable_key(k, mt, msn)` to `v` and every other entry is unchanged. The length grows by 1 for a new encoded key and stays the same when an existing value is replaced. The key view stays sorted |
| `Memtable.MemTable.Insert` | src/memtable.rs:55 | the map's `insert` sets one entry and keeps the key view strictly ascending and in step with the map |
| `Memtable.MemTable.Get` | src/memtable.rs:58-73 | `get` returns `(None, false)` for every query |
| `Memtable.MemTable.Iter` | src/memtable.rs:75-77 | `iter` yields every entry exactly once with its value, in strictly ascending bytewise order of the encoded keys |
| `Memtable.DistinctPutsCount` | src/memtable.rs:54-56 | starting from an empty table, `put`s of pairwise distinct (user key, sequence number) pairs below 2^56 store every encoded key, and the length equals the number of `put`s |
| `Memtable.EncodedKeyOfSomePut` | src/memtable.rs:54-56 | every key in the table is the encoded key of one of the `put`s |
| `Memtable.DeleteSortsBeforeInsert` | src/memtable.rs:32 | in the table's bytewise order, a deletion of a user key sorts before any insertion of that key, whatever the sequence numbers |
| `Memtable.OlderIteratesFirst` | src/memtable.rs:32 | for inserts of "a" with sequence numbers 1 and 2, the table puts sequence number 1 first, while `cmp_memtable_key` puts 2 first |

## Left out

- `mem_foot_print` (src/memtable.rs:46-52) is not modelled. It panics unconditionally, so there is no behaviour to state.
- The lookup logic commented out inside `get` (src/memtable.rs:59-71) is not code that runs. Only the stub's `(None, false)` is modelled.
- The nodes and balancing of `BTreeMap` are not modelled. The ordered map is a Dafny `map` plus an ascending sequence of its keys. `Insert` finds the new key's place in that sequence by a linear scan.
- Lifetimes and borrowing are not modelled. Keys and values are owned sequences, including the temporary `Vec` that `put` borrows.
- `iter` returns a lazy `btree_map::Iter`. The model returns the whole sequence of entries at once.
- The `Cmp` trait's dynamic dispatch is not modelled. A comparator is a record holding a `cmp` function and an `id`.
- `id` is not a function in the model. It is the constant `Cmp.DEFAULT_CMP_ID`.
- The integer width of `decode_var` is not modelled. `Encoding.DecodeVarint` reads a varint of any length into an unbounded number. It also accepts non-canonical encodings, as the crate does. The code only decodes keys that it encoded itself.
- The `usize` overflow of `k.len() + 8` and of the buffer sizes is not modelled. Lengths are unbounded naturals.
- What `cmp_memtable_key` does with malformed input is not modelled: the `al - 8` underflow when `al < 8`, and out-of-range slices. Its inputs are required to satisfy `KeyTypes.WellFormed`.
- The derived `Clone`, `Debug`, `PartialEq` and `PartialOrd` implementations are not modelled.

## Findings

| source | as written | input that shows it | evidently intended | confidence | as-written member | corrected member |
|---|---|---|---|---|---|---|
| src/key_types.rs:135 | b's tag is sliced as `b[ao + bl - 8..bo + bl]`, using a's varint width `ao`; that slice is `8 + bo - ao` bytes long | a comparator that orders keys by their first byte (`KeyTypes.FirstByteOrder`); a = memtable key of `[1]` (1-byte varint), b = memtable key of `[1]` followed by 119 zero bytes (2-byte varint): the user keys compare Equal and b's tag slice is 9 bytes | `b[bo + bl - 8..bo + bl]`, each key's tag read at its own offset | high that the slice has the wrong length; what `decode_fixed` then does depends on the crate version; not executed | `KeyTypes.CmpMemtableKeyAsWritten`, `KeyTypes.AsWrittenCounterexample` | `KeyTypes.CmpMemtableKey`, `KeyTypes.CmpMemtableKeyOnEncoded` |
