# Kudu core logic in Dafny

This project models seven pieces of Apache Kudu and proves properties of them:

- **`Bytes.java` (Java client).** The little-endian fixed-width codec for 2, 4, 8 and 16 byte values, signed and unsigned. Also the protobuf-style `putVarInt32`/`readVarInt32` pair, in-place `reverseBytes`, unsigned lexicographic `memcmp` and its null-aware variant, bitset packing (`getBitSetSize`, `fromBitSet`, `toBitSet`), `xorLeftMostBit` and the `pretty` escaper (modules `BytesCodec`, `BytesVarint`, `BytesBigInteger`, `BytesCompare`, `BytesBitSet`, `BytesPretty`).
- **The block cache, one shard.** Its behaviour follows `cache-test.cc`:
  - the Allocate → fill value → Insert lifecycle;
  - lookup, replacement and erase;
  - handle pinning, where an evicted entry's callback waits for the last handle to be released;
  - capacity-bounded eviction under FIFO and LRU;
  - `Invalidate`, driven by a validity function and an advance function.

  `CacheModel` gives the shard state and every operation as functions on values, with the invariant `Valid`. `CacheScenarios` proves the test scenarios from them. `BlockCache.CacheShard` is the mutable shard object; each of its methods is tied to the matching `CacheModel` function.
- **The split block Bloom filter** (`block_bloom_filter.cc`), as the class `BlockBloom.BlockBloomFilter` over a directory array of 32-bit words, with no false negatives proved.
- **Column predicate cell evaluation** (`column_predicate.h`), over an abstract comparison function (`ColumnPredicates`).
- **Sentry action names and implication** (`sentry_action.cc`, module `SentryAction`).
- **Authorizable scopes and well-formed privileges** (`sentry_privileges_fetcher.h`, module `SentryPrivileges`).
- **CLI table output** (`tool_action_common.cc/.h`, module `ToolTables`): the column-major `DataTable`, separator-joined and "pretty" rendering, format selection, `MatchesAnyPattern` and the `@` cluster-name rule.

Shared modules:
- `Wrappers`: `Option`, `Result`, `Outcome`;
- `KuduStatus`: Kudu `Status` codes and Java exception kinds;
- `AsciiStrings`: ASCII upper-casing, case-insensitive equality, `Join`/`Split`, decimal rendering.

Java `byte` values are modelled as their unsigned bit pattern (0..255). `short`, `int` and `long` are subset types of `int`, and every wrap-around is written out with `%`.

## Model

| member | source | states |
|---|---|---|
| BytesCodec.ReadLE | java/kudu-client/src/main/java/org/apache/kudu/client/Bytes.java:299-304 | Reading w bytes succeeds iff the window lies inside the array; the value read re-encodes to exactly those bytes; out of bounds is IndexOutOfBounds |
| BytesCodec.ReadWritten | java/kudu-client/src/main/java/org/apache/kudu/client/Bytes.java:346-351 | Reading back a window just written gives the written value modulo 2^(8w) |
| BytesCodec.GetShort | java/kudu-client/src/main/java/org/apache/kudu/client/Bytes.java:187-189 | Succeeds iff offset+2 is in bounds; the short read agrees with the little-endian bytes modulo 2^16 |
| BytesCodec.GetUnsignedShort | java/kudu-client/src/main/java/org/apache/kudu/client/Bytes.java:210-212 | Result is in [0, 2^16), equals the little-endian value and equals getShort modulo 2^16 |
| BytesCodec.GetInt | java/kudu-client/src/main/java/org/apache/kudu/client/Bytes.java:299-304 | Succeeds iff offset+4 is in bounds; the int read agrees with the little-endian bytes modulo 2^32 |
| BytesCodec.GetUnsignedInt | java/kudu-client/src/main/java/org/apache/kudu/client/Bytes.java:325-327 | Result is in [0, 2^32), equals the little-endian value and equals getInt modulo 2^32 |
| BytesCodec.GetLong | java/kudu-client/src/main/java/org/apache/kudu/client/Bytes.java:508-517 | Succeeds iff offset+8 is in bounds; the long read agrees with the little-endian bytes modulo 2^64 |
| BytesCodec.GetUnsignedLong | java/kudu-client/src/main/java/org/apache/kudu/client/Bytes.java:482-489 | Result is in [0, 2^64), equals the little-endian value and equals getLong modulo 2^64 |
| BytesCodec.ToInt | java/kudu-client/src/main/java/org/apache/kudu/client/Bytes.java:1143-1155 | Java int narrowing: congruent modulo 2^32 and the identity on values that fit |
| BytesCodec.LongValue | java/kudu-client/src/main/java/org/apache/kudu/client/Bytes.java:564-566 | BigInteger.longValue: congruent to n modulo 2^64 |
| BytesCodec.PutLE | java/kudu-client/src/main/java/org/apache/kudu/client/Bytes.java:346-351 | The array afterwards is exactly the old array with byte k of the window set to byte k of n (in-range part only); passes iff the window is in bounds, else IndexOutOfBounds |
| BytesCodec.SetShort | java/kudu-client/src/main/java/org/apache/kudu/client/Bytes.java:231-235 | Writes the 2-byte little-endian window and nothing else; passes iff in bounds, else fails with IndexOutOfBounds |
| BytesCodec.SetUnsignedShort | java/kudu-client/src/main/java/org/apache/kudu/client/Bytes.java:254-258 | Writes the low 16 bits little-endian; passes iff in bounds, else fails with IndexOutOfBounds |
| BytesCodec.SetInt | java/kudu-client/src/main/java/org/apache/kudu/client/Bytes.java:346-351 | Writes the 4-byte little-endian window and nothing else; passes iff in bounds, else fails with IndexOutOfBounds |
| BytesCodec.SetUnsignedInt | java/kudu-client/src/main/java/org/apache/kudu/client/Bytes.java:370-375 | Writes the low 32 bits little-endian; passes iff in bounds, else fails with IndexOutOfBounds |
| BytesCodec.SetLong | java/kudu-client/src/main/java/org/apache/kudu/client/Bytes.java:536-545 | Writes the 8-byte little-endian window and nothing else; passes iff in bounds, else fails with IndexOutOfBounds |
| BytesCodec.SetUnsignedLong | java/kudu-client/src/main/java/org/apache/kudu/client/Bytes.java:564-566 | Writes n.longValue() as 8 little-endian bytes; passes iff in bounds, else fails with IndexOutOfBounds |
| BytesCodec.ShortRoundTrip | java/kudu-client/src/main/java/org/apache/kudu/client/Bytes.java:187-189 | getShort after setShort at any in-bounds offset returns the short written |
| BytesCodec.UnsignedShortRoundTrip | java/kudu-client/src/main/java/org/apache/kudu/client/Bytes.java:210-212 | getUnsignedShort after setUnsignedShort returns n mod 2^16 |
| BytesCodec.IntRoundTrip | java/kudu-client/src/main/java/org/apache/kudu/client/Bytes.java:299-304 | getInt after setInt returns the int written |
| BytesCodec.UnsignedIntRoundTrip | java/kudu-client/src/main/java/org/apache/kudu/client/Bytes.java:325-327 | getUnsignedInt after setUnsignedInt returns n mod 2^32 |
| BytesCodec.LongRoundTrip | java/kudu-client/src/main/java/org/apache/kudu/client/Bytes.java:508-517 | getLong after setLong returns the long written |
| BytesCodec.UnsignedLongRoundTrip | java/kudu-client/src/main/java/org/apache/kudu/client/Bytes.java:482-489 | getUnsignedLong after setUnsignedLong returns n mod 2^64 |
| BytesCodec.LEEncode | java/kudu-client/src/main/java/org/apache/kudu/client/Bytes.java:508-517 | Decoding the w-byte encoding of n gives n mod 256^w |
| BytesCodec.EncodeLE | java/kudu-client/src/main/java/org/apache/kudu/client/Bytes.java:536-545 | Encoding the decoded value of w bytes gives those bytes back |
| BytesCodec.SignedRoundTrip | java/kudu-client/src/main/java/org/apache/kudu/client/Bytes.java:508-517 | The two's-complement reinterpretation of n mod 256^w is n for every n in the signed range |
| BytesCodec.ByteAtShift | java/kudu-client/src/main/java/org/apache/kudu/client/Bytes.java:536-545 | Byte k of n is (n >>> 8k) & 0xFF |
| BytesVarint.PutVarInt32 | java/kudu-client/src/main/java/org/apache/kudu/client/Bytes.java:377-400 | The writer as written emits 1 to 5 bytes |
| BytesVarint.PutVarInt32Fixed | java/kudu-client/src/main/java/org/apache/kudu/client/Bytes.java:377-400 | The corrected writer emits 1 to 5 bytes |
| BytesVarint.PutVarInt32FixedLength | java/kudu-client/src/main/java/org/apache/kudu/client/Bytes.java:377-400 | The corrected writer emits k bytes exactly when 128^(k-1) <= v < 128^k (5 bytes from 2^28 up) |
| BytesVarint.PutVarInt32FixedShape | java/kudu-client/src/main/java/org/apache/kudu/client/Bytes.java:377-400 | Every byte but the last carries the continuation bit; the last does not |
| BytesVarint.ReadVarInt32 | java/kudu-client/src/main/java/org/apache/kudu/client/Bytes.java:407-435 | On success 1..5 bytes are consumed, the last without and all earlier with the continuation bit; running out of input (fewer than 5 bytes, all continued) is exactly the IndexOutOfBounds case |
| BytesVarint.ReadVarInt32FifthByte | java/kudu-client/src/main/java/org/apache/kudu/client/Bytes.java:427-434 | After four continued bytes, the read fails iff the fifth byte has its high bit set, and that failure is IllegalArgument |
| BytesVarint.VarIntRoundTrip | java/kudu-client/src/main/java/org/apache/kudu/client/Bytes.java:407-435 | readVarInt32 of the corrected encoding of any v >= 0, followed by anything, returns v and the encoding's length |
| BytesVarint.PutVarInt32RoundTrip | java/kudu-client/src/main/java/org/apache/kudu/client/Bytes.java:377-435 | The writer as written round-trips through readVarInt32 for 0 <= v < 2^7 and 2^14 <= v < 2^31 |
| BytesVarint.PutVarInt32TwoByteBranch | java/kudu-client/src/main/java/org/apache/kudu/client/Bytes.java:381-383 | For 2^7 <= v < 2^14 the writer as written emits two bytes that both carry the continuation bit, so reading them alone fails and reading them with any suffix never gives (v, 2) |
| BytesVarint.PutVarInt32Counterexample | java/kudu-client/src/main/java/org/apache/kudu/client/Bytes.java:381-383 | v = 300 is written as [0xAC, 0x82] whose read fails; the corrected writer gives [0xAC, 0x02], which reads back as (300, 2) |
| BytesVarint.PutVarInt32Negative | java/kudu-client/src/main/java/org/apache/kudu/client/Bytes.java:379-380 | A negative v takes the first branch and is written as one truncated byte, which does not read back as v |
| BytesBigInteger.ReverseBytes | java/kudu-client/src/main/java/org/apache/kudu/client/Bytes.java:664-671 | The array afterwards is the old array reversed |
| BytesBigInteger.ReversedAt | java/kudu-client/src/main/java/org/apache/kudu/client/Bytes.java:664-671 | Position i of the reversal holds the old byte at n-1-i |
| BytesBigInteger.ReversedTwice | java/kudu-client/src/main/java/org/apache/kudu/client/Bytes.java:664-671 | Reversing twice is the identity |
| BytesBigInteger.MinTwosLenFits | java/kudu-client/src/main/java/org/apache/kudu/client/Bytes.java:632-646 | BigInteger.toByteArray's minimal two's-complement length is at most w iff n fits in w signed bytes |
| BytesBigInteger.ToByteArrayRoundTrip | java/kudu-client/src/main/java/org/apache/kudu/client/Bytes.java:607-613 | Reading the big-endian two's-complement bytes of toByteArray gives n back |
| BytesBigInteger.GetBigInteger | java/kudu-client/src/main/java/org/apache/kudu/client/Bytes.java:607-613 | Succeeds iff 0 <= offset <= length, and the value is always within 16 signed bytes |
| BytesBigInteger.SetBigInteger | java/kudu-client/src/main/java/org/apache/kudu/client/Bytes.java:632-646 | The array afterwards is the reversed toByteArray copied at offset, then 0xFF sign fill up to 16 bytes for negatives, each step applied only as far as the Java code gets before throwing; the outcome names the exception |
| BytesBigInteger.LittleEndianBytes | java/kudu-client/src/main/java/org/apache/kudu/client/Bytes.java:633-640 | Returns a fresh array holding the reversed toByteArray, i.e. the minimal little-endian encoding |
| BytesBigInteger.CopyInto | java/kudu-client/src/main/java/org/apache/kudu/client/Bytes.java:641 | System.arraycopy: the window at offset becomes the source and the rest is unchanged |
| BytesBigInteger.FillRange | java/kudu-client/src/main/java/org/apache/kudu/client/Bytes.java:643-644 | Arrays.fill: the range becomes the fill byte and the rest is unchanged |
| BytesBigInteger.SetBigIntegerTooWide | java/kudu-client/src/main/java/org/apache/kudu/client/Bytes.java:636-638 | A value wider than 16 bytes is IllegalArgument and leaves the array unchanged |
| BytesBigInteger.WrittenUnchanged | java/kudu-client/src/main/java/org/apache/kudu/client/Bytes.java:636-641 | Too wide or an out-of-bounds copy leaves the array unchanged with the matching exception |
| BytesBigInteger.WrittenIndex | java/kudu-client/src/main/java/org/apache/kudu/client/Bytes.java:632-646 | Inside the 16-byte window, each byte is the encoding byte, the 0xFF sign fill or the old byte |
| BytesBigInteger.BigIntegerRoundTrip | java/kudu-client/src/main/java/org/apache/kudu/client/Bytes.java:607-646 | On a zeroed 16-byte window, setBigInteger passes and getBigInteger reads n back, for every n in [-2^127, 2^127) |
| BytesCompare.CompareZero | java/kudu-client/src/main/java/org/apache/kudu/client/Bytes.java:1119-1130 | memcmp is 0 iff the arrays have the same length and contents |
| BytesCompare.CompareNegative | java/kudu-client/src/main/java/org/apache/kudu/client/Bytes.java:1119-1130 | memcmp is negative iff a sorts first in unsigned lexicographic order, a proper prefix first |
| BytesCompare.ComparePositive | java/kudu-client/src/main/java/org/apache/kudu/client/Bytes.java:1119-1130 | memcmp is positive iff b sorts first |
| BytesCompare.CompareAntisymmetric | java/kudu-client/src/main/java/org/apache/kudu/client/Bytes.java:1119-1130 | Swapping the arguments negates memcmp |
| BytesCompare.Memcmp | java/kudu-client/src/main/java/org/apache/kudu/client/Bytes.java:1119-1130 | The loop returns the unsigned lexicographic comparison of the two arrays |
| BytesCompare.CompareWindowInBounds | java/kudu-client/src/main/java/org/apache/kudu/client/Bytes.java:1143-1155 | With the window in bounds of both arrays, memcmp(a, b, offset, length) compares the two windows |
| BytesCompare.MemcmpWindow | java/kudu-client/src/main/java/org/apache/kudu/client/Bytes.java:1143-1155 | The same array compares 0; otherwise the result is the window comparison up to the int-wrapped offset+length, or the index exception |
| BytesCompare.DeDup | java/kudu-client/src/main/java/org/apache/kudu/client/Bytes.java:1167-1169 | Returns the old array when the contents are equal, else the new one |
| BytesCompare.Equals | java/kudu-client/src/main/java/org/apache/kudu/client/Bytes.java:1178-1180 | True iff the contents are equal, i.e. iff memcmp is 0 |
| BytesCompare.CompareMaybeNull | java/kudu-client/src/main/java/org/apache/kudu/client/Bytes.java:1191-1201 | On two arrays it is memcmp |
| BytesCompare.NullFirst | java/kudu-client/src/main/java/org/apache/kudu/client/Bytes.java:1191-1201 | 0 iff both are null or equal; null sorts before every array; the order is antisymmetric |
| BytesCompare.MemcmpMaybeNull | java/kudu-client/src/main/java/org/apache/kudu/client/Bytes.java:1191-1201 | Returns the null-aware comparison of the contents |
| BytesCompare.XorLeftMostBit | java/kudu-client/src/main/java/org/apache/kudu/client/Bytes.java:1233-1236 | Keeps the low seven bits and flips the top bit |
| BytesCompare.XorLeftMostBitInvolution | java/kudu-client/src/main/java/org/apache/kudu/client/Bytes.java:1233-1236 | Flipping twice is the identity |
| BytesCompare.XorLeftMostBitOrder | java/kudu-client/src/main/java/org/apache/kudu/client/Bytes.java:1233-1236 | Signed byte order becomes unsigned order after the flip |
| BytesBitSet.GetBitSetSizeCeil | java/kudu-client/src/main/java/org/apache/kudu/client/Bytes.java:1203-1205 | For 0 <= items <= 2^31-8, getBitSetSize is ceil(items/8) |
| BytesBitSet.GetBitSetSizeOverflow | java/kudu-client/src/main/java/org/apache/kudu/client/Bytes.java:1203-1205 | Above 2^31-8 the int addition overflows and the size is negative |
| BytesBitSet.FromBitSet | java/kudu-client/src/main/java/org/apache/kudu/client/Bytes.java:1207-1215 | The loop over set bits produces the packed bytes (or the exception for a negative size or an out-of-range bit) |
| BytesBitSet.SetBitInByte | java/kudu-client/src/main/java/org/apache/kudu/client/Bytes.java:1211-1212 | Setting bit i keeps every other bit and adds bit i |
| BytesBitSet.FromBitSetFits | java/kudu-client/src/main/java/org/apache/kudu/client/Bytes.java:1207-1215 | With every set bit below colCount, fromBitSet succeeds with ceil(colCount/8) bytes, each the packed byte of its bits |
| BytesBitSet.ToBitSet | java/kudu-client/src/main/java/org/apache/kudu/client/Bytes.java:1217-1225 | The loop produces bit i = bit i%8 of byte offset+i/8, or the index exception |
| BytesBitSet.ToBitSetFits | java/kudu-client/src/main/java/org/apache/kudu/client/Bytes.java:1217-1225 | With enough bytes, toBitSet succeeds and reads bit i from byte i/8, bit i%8 |
| BytesBitSet.BitSetRoundTrip | java/kudu-client/src/main/java/org/apache/kudu/client/Bytes.java:1203-1225 | toBitSet(fromBitSet(bits, c), 0, c) has the same bits as bits whenever every set bit is below c |
| BytesBitSet.PackBits | java/kudu-client/src/main/java/org/apache/kudu/client/Bytes.java:1211-1212 | Bit k of a packed byte is set bit base+k |
| BytesBitSet.BitsDetermine | java/kudu-client/src/main/java/org/apache/kudu/client/Bytes.java:1211-1212 | Two bytes with the same bits are equal |
| BytesPretty.StringBuilder.constructor | java/kudu-client/src/main/java/org/apache/kudu/client/Bytes.java:977 | A builder starts with the given text |
| BytesPretty.StringBuilder.Append | java/kudu-client/src/main/java/org/apache/kudu/client/Bytes.java:909-940 | append adds the string at the end |
| BytesPretty.StringBuilder.SetLength | java/kudu-client/src/main/java/org/apache/kudu/client/Bytes.java:935 | setLength truncates, or pads with NUL characters |
| BytesPretty.Hex | java/kudu-client/src/main/java/org/apache/kudu/client/Bytes.java:899-902 | Every nibble maps to an upper-case hex digit |
| BytesPretty.HexDigits | java/kudu-client/src/main/java/org/apache/kudu/client/Bytes.java:899-902 | The hex digit of d decodes back to d |
| BytesPretty.EscapeByte | java/kudu-client/src/main/java/org/apache/kudu/client/Bytes.java:920-932 | Each byte becomes 1 to 4 characters |
| BytesPretty.Pretty | java/kudu-client/src/main/java/org/apache/kudu/client/Bytes.java:909-940 | Appends exactly the pretty text of the array ("null" for a null array) |
| BytesPretty.PrettyNonNull | java/kudu-client/src/main/java/org/apache/kudu/client/Bytes.java:914-939 | For a non-null array, appends the quoted escaped text, or, when fewer than half the bytes are printable, truncates back and appends Arrays.toString of the signed values |
| BytesPretty.AppendAllEscaped | java/kudu-client/src/main/java/org/apache/kudu/client/Bytes.java:919-933 | The escaping loop appends the escaping of every byte and counts the printable ones |
| BytesPretty.EscapedShape | java/kudu-client/src/main/java/org/apache/kudu/client/Bytes.java:920-932 | The escaped text is 1 to 4 times as long as the input and all printable |
| BytesPretty.PrettyVerbatim | java/kudu-client/src/main/java/org/apache/kudu/client/Bytes.java:909-940 | An all-printable array is shown verbatim in quotes |
| BytesPretty.UnescapeRoundTrip | java/kudu-client/src/main/java/org/apache/kudu/client/Bytes.java:920-932 | Without backslashes in the input, unescaping the escaped text gives the bytes back |
| BytesPretty.PrettyAmbiguous | java/kudu-client/src/main/java/org/apache/kudu/client/Bytes.java:920-932 | A literal backslash is not escaped, so the bytes "\n" (two characters) and a newline byte print the same |
| CacheModel.Empty | src/kudu/util/cache-test.cc:118-130 | A new shard satisfies the shard invariant |
| CacheModel.Allocate | src/kudu/util/cache-test.cc:87-91 | Allocate adds a fresh handle holding the key, the charge and one reference, outside the index; nothing else changes |
| CacheModel.SetValue | src/kudu/util/cache-test.cc:92 | Filling the value changes only that entry's value |
| CacheModel.Erase | src/kudu/util/cache-test.cc:96-98 | Erase removes exactly the key from the index and its handle from the residency order; an absent key changes nothing |
| CacheModel.EraseFrame | src/kudu/util/cache-test.cc:252-270 | Every other entry is unchanged, and usage drops by the erased charge |
| CacheModel.EraseCallback | src/kudu/util/cache-test.cc:252-296 | With no outstanding handle the entry is freed and the callback fires once with its key and value; a pinned entry stays alive, unindexed, with one reference fewer |
| CacheModel.EraseLog | src/kudu/util/cache-test.cc:77-80 | The callback log only grows |
| CacheModel.Evict | src/kudu/util/cache-test.cc:301-324 | Eviction restores the invariant and leaves usage at most the capacity |
| CacheModel.EvictSuffix | src/kudu/util/cache-test.cc:442-488 | Eviction removes entries from the oldest end only: what stays is a suffix of the order |
| CacheModel.EvictIndex | src/kudu/util/cache-test.cc:301-324 | A key still indexed after eviction maps to the same handle and entry as before |
| CacheModel.EvictUnindexed | src/kudu/util/cache-test.cc:272-296 | An entry already out of the index is untouched by eviction |
| CacheModel.EvictPinned | src/kudu/util/cache-test.cc:272-296 | A pinned entry survives eviction with its key and value and stays pinned |
| CacheModel.EvictLog | src/kudu/util/cache-test.cc:77-80 | Eviction only appends to the callback log |
| CacheModel.EvictSettings | src/kudu/util/cache-test.cc:118-130 | Eviction keeps the policy, capacity and handle counter |
| CacheModel.Insert | src/kudu/util/cache-test.cc:93 | Insert keeps the invariant and leaves usage at most the capacity |
| CacheModel.InsertKeeps | src/kudu/util/cache-test.cc:272-296 | The caller's handle stays valid after Insert with its key and value |
| CacheModel.InsertLinked | src/kudu/util/cache-test.cc:87-94 | Insert is erase-old-key, link at the newest end, then evict |
| CacheModel.Lookup | src/kudu/util/cache-test.cc:82-85 | Lookup hits iff the key is indexed, returns its handle and pins it |
| CacheModel.LookupRelease | src/kudu/util/cache-test.cc:82-85 | Lookup then release restores the shard, except that LRU moves the entry to the newest end |
| CacheModel.LookupValue | src/kudu/util/cache-test.cc:82-85 | The test's Lookup returns the indexed value or a miss; the state is unchanged except for LRU recency |
| CacheModel.InvalidateKey | src/kudu/util/cache-test.cc:326-424 | With an always-true advance, a key survives iff it was already passed or its entry is valid, and survivors keep handle and entry |
| CacheModel.InvalidateCount | src/kudu/util/cache-test.cc:326-424 | The returned count is exactly the number of entries removed |
| CacheModel.DetachedValid | src/kudu/util/cache-test.cc:252-296 | Unlinking an entry from index and order keeps the invariant and leaves it unindexed |
| CacheModel.UnrefValid | src/kudu/util/cache-test.cc:283-296 | Releasing a reference keeps the invariant |
| CacheModel.LinkValid | src/kudu/util/cache-test.cc:87-94 | Linking a new entry keeps the invariant |
| CacheModel.MoveToBackValid | src/kudu/util/cache-test.cc:514-533 | Moving an entry to the newest end keeps the invariant |
| CacheScenarios.PutGet | src/kudu/util/cache-test.cc:228-240 | After Insert(k, v) with a charge within capacity, Lookup(k) returns v |
| CacheScenarios.InsertOthers | src/kudu/util/cache-test.cc:228-249 | Inserting k never makes another key appear nor changes its value; it may only evict it |
| CacheScenarios.InsertFitsIndex | src/kudu/util/cache-test.cc:242-249 | When nothing needs evicting, the index maps the key to the new handle and keeps every other key |
| CacheScenarios.InsertFitsLog | src/kudu/util/cache-test.cc:242-249 | Replacing an unpinned entry fires the callback exactly once with the old key and value; otherwise nothing fires |
| CacheScenarios.InsertFitsPinned | src/kudu/util/cache-test.cc:272-286 | Replacing a pinned entry keeps it alive, unindexed, with one reference fewer |
| CacheScenarios.UnrefPinned | src/kudu/util/cache-test.cc:272-296 | Releasing one of several references only decrements the count |
| CacheScenarios.InvalidateNoop | src/kudu/util/cache-test.cc:350-398 | An always-valid function or a never-advance function leaves the shard unchanged and returns 0 |
| CacheScenarios.InvalidateSweep | src/kudu/util/cache-test.cc:400-424 | With an always-true advance, exactly the valid keys survive, with their entries, and the count is the number removed |
| CacheScenarios.InvalidateAll | src/kudu/util/cache-test.cc:326-348 | The invalidate-all control empties the index and returns the number of resident entries |
| CacheScenarios.EvictUniform | src/kudu/util/cache-test.cc:442-462 | With all charges c, eviction keeps min(n, capacity/c) entries |
| CacheScenarios.InsertUniform | src/kudu/util/cache-test.cc:442-488 | FIFO with all charges c: after inserting a new key, the newest min(n+1, capacity/c) handles remain, in insertion order |
| CacheScenarios.InsertKeepsNewest | src/kudu/util/cache-test.cc:514-533 | The newest entry survives an insert of another key when the two charges fit together |
| CacheScenarios.LookupRecency | src/kudu/util/cache-test.cc:442-533 | Under LRU a lookup makes the entry the newest and changes nothing else; under FIFO a lookup changes nothing |
| CacheScenarios.EvictKeepsAt | src/kudu/util/cache-test.cc:442-488 | An entry among newest entries whose charges fit stays resident after eviction |
| CacheScenarios.InsertResident | src/kudu/util/cache-test.cc:228-240 | An entry whose charge fits the capacity is resident under its key right after Insert |
| CacheScenarios.InsertOtherKey | src/kudu/util/cache-test.cc:228-249 | A key other than the inserted one, if still indexed, keeps its handle and entry |
| BlockCache.CacheShard.constructor | src/kudu/util/cache-test.cc:118-130 | A new shard object models the empty shard |
| BlockCache.CacheShard.Allocate | src/kudu/util/cache-test.cc:87-91 | Updates the object exactly as CacheModel.Allocate and returns its handle |
| BlockCache.CacheShard.SetValue | src/kudu/util/cache-test.cc:92 | Updates the object exactly as CacheModel.SetValue |
| BlockCache.CacheShard.Value | src/kudu/util/cache-test.cc:84 | Reads the value held by a handle |
| BlockCache.CacheShard.Release | src/kudu/util/cache-test.cc:283-296 | Drops one reference, freeing an unindexed entry and firing its callback on the last one; keeps the shard invariant |
| BlockCache.CacheShard.Erase | src/kudu/util/cache-test.cc:96-98 | Updates the object exactly as CacheModel.Erase |
| BlockCache.CacheShard.Link | src/kudu/util/cache-test.cc:93 | Puts a handle at the newest end of the order and in the index |
| BlockCache.CacheShard.Insert | src/kudu/util/cache-test.cc:93 | Updates the object exactly as CacheModel.Insert |
| BlockCache.CacheShard.Lookup | src/kudu/util/cache-test.cc:83 | Updates the object and returns the handle exactly as CacheModel.Lookup |
| BlockCache.CacheShard.Invalidate | src/kudu/util/cache-test.cc:326-424 | The loop updates the object and returns the count exactly as CacheModel.Invalidate |
| BlockCache.CacheShard.InsertValue | src/kudu/util/cache-test.cc:87-94 | The test helper Insert: Allocate, fill, Insert, release, as CacheModel.InsertValue |
| BlockCache.CacheShard.LookupValue | src/kudu/util/cache-test.cc:82-85 | The test helper Lookup, as CacheModel.LookupValue |
| BlockBloom.BitPos | src/kudu/util/block_bloom_filter.cc:101-110 | The bit chosen by a salt is below 32 |
| BlockBloom.Bucket | src/kudu/util/block_bloom_filter.cc:170-175 | Rehash32to32(hash) & mask is below the bucket count |
| BlockBloom.InsertedWord | src/kudu/util/block_bloom_filter.cc:111-115 | Each word of the bucket gains its selected bit |
| BlockBloom.InsertedHas | src/kudu/util/block_bloom_filter.cc:101-129 | After inserting a hash into a bucket, that bucket has all its bits |
| BlockBloom.InsertedBits | src/kudu/util/block_bloom_filter.cc:101-116 | Insert only ORs: words outside the bucket are unchanged and no bit is cleared |
| BlockBloom.InsertedKeepsHas | src/kudu/util/block_bloom_filter.cc:101-129 | Inserting never removes what an earlier insert put in |
| BlockBloom.InsertedIdempotent | src/kudu/util/block_bloom_filter.cc:111-115 | Inserting the same hash twice equals inserting it once |
| BlockBloom.InsertAllKeeps | src/kudu/util/block_bloom_filter.cc:159-175 | A hash once inserted is still found after any further inserts |
| BlockBloom.NoFalseNegatives | src/kudu/util/block_bloom_filter.cc:159-184 | After inserting h and then any other hashes, finding h succeeds |
| BlockBloom.LogNumBuckets | src/kudu/util/block_bloom_filter.cc:74 | log_num_buckets is max(1, log_space_bytes - 5) |
| BlockBloom.BlockBloomFilter.BucketIndex | src/kudu/util/block_bloom_filter.cc:170-175 | The bucket index is at most directory_mask_; it is taken modulo directory_mask_ + 1, which Ready() keeps a power of two, so it equals the source's mask |
| BlockBloom.BlockBloomFilter.constructor | src/kudu/util/block_bloom_filter.cc:46-64 | A new filter is always-false with no directory |
| BlockBloom.BlockBloomFilter.Init | src/kudu/util/block_bloom_filter.cc:71-91 | Stores log_num_buckets; above 32 it returns the exact InvalidArgument message; otherwise mask = 2^L - 1, and on allocation success the directory is fresh, has (mask+1)*8 words, all zero; allocation failure is a RuntimeError |
| BlockBloom.BlockBloomFilter.Close | src/kudu/util/block_bloom_filter.cc:93-98 | Releases the directory and keeps the other fields |
| BlockBloom.BlockBloomFilter.BucketInsert | src/kudu/util/block_bloom_filter.cc:101-116 | The directory afterwards is the old one with the hash's eight bits ORed into the bucket |
| BlockBloom.BlockBloomFilter.BucketFind | src/kudu/util/block_bloom_filter.cc:119-129 | True iff every word of the bucket has its selected bit |
| BlockBloom.BlockBloomFilter.Insert | src/kudu/util/block_bloom_filter.cc:159-175 | Clears always_false_ and ORs the hash into bucket Rehash32to32(hash) & mask only |
| BlockBloom.BlockBloomFilter.Find | src/kudu/util/block_bloom_filter.cc:177-184 | False while always_false_ is set, otherwise BucketFind on the hash's bucket |
| ColumnPredicates.RangePredicate | src/kudu/common/column_predicate.h:93-103 | A range with at least one bound gives a well-formed predicate that accepts exactly the cells with lower <= cell < upper; it is simplified to None exactly when both bounds are present and lower does not sort before upper, and otherwise stays a Range on the given bounds |
| ColumnPredicates.LowerBoundSplits | src/kudu/common/column_predicate.h:212-217 | The binary search's lower bound splits a sorted list into values below x and the rest |
| ColumnPredicates.BinarySearchMember | src/kudu/common/column_predicate.h:212-217 | On a strictly sorted list, std::binary_search finds x iff x is in the list |
| ColumnPredicates.AllMayContain | src/kudu/common/column_predicate.h:386-391 | True iff every Bloom filter may contain the cell |
| ColumnPredicates.EvaluateCellMeaning | src/kudu/common/column_predicate.h:187-223 | None and IsNull reject every cell; IsNotNull accepts every cell; Range accepts lower <= cell < upper with a missing bound unbounded; Equality accepts exactly cells equal to lower; InList is membership; InBloomFilter is all filters plus the same interval |
| ColumnPredicates.Evaluate | src/kudu/common/column_predicate.h:170-183 | Each selection bit becomes its old value AND the predicate on the cell, so no bit is ever set |
| SentryAction.ActionToString | src/kudu/sentry/sentry_action.cc:36-52 | Every action has a non-empty upper-case name |
| SentryAction.FromString | src/kudu/sentry/sentry_action.cc:68-98 | Never yields UNINITIALIZED; failure is InvalidArgument with the source's message |
| SentryAction.FromStringAccepts | src/kudu/sentry/sentry_action.cc:73-92 | FromString gives a exactly when the string equals a's name ignoring case, or is "*" and a is ALL |
| SentryAction.ParsedNameMatches | src/kudu/sentry/sentry_action.cc:73-92 | A parsed action's name matches the input ignoring case (or the input is the wildcard) |
| SentryAction.MatchingNameParses | src/kudu/sentry/sentry_action.cc:73-92 | Any case variant of an action name (or "*" for ALL) parses to that action |
| SentryAction.NamesDistinct | src/kudu/sentry/sentry_action.cc:36-52 | Distinct actions have distinct names |
| SentryAction.NamesUpper | src/kudu/sentry/sentry_action.cc:36-52 | Every action name is already upper case |
| SentryAction.FromStringToString | src/kudu/sentry/sentry_action.cc:36-92 | FromString(ActionToString(a)) = a for every initialized action |
| SentryAction.FromStringIgnoresCase | src/kudu/sentry/sentry_action.cc:75-92 | Upper-casing the input changes neither acceptance nor result |
| SentryAction.FromStringRejects | src/kudu/sentry/sentry_action.cc:93-95 | "UNINITIALIZED", the empty string and "**" are rejected |
| SentryAction.ImpliesReflexive | src/kudu/sentry/sentry_action.cc:116 | Every action implies itself |
| SentryAction.ImpliesTransitive | src/kudu/sentry/sentry_action.cc:100-117 | Implies is transitive |
| SentryAction.ImpliesExtremes | src/kudu/sentry/sentry_action.cc:105-114 | ALL and OWNER imply everything, everything implies METADATA, and only ALL and OWNER imply ALL |
| SentryAction.ImpliesAntisymmetric | src/kudu/sentry/sentry_action.cc:100-117 | Mutual implication means equal actions, or both of ALL and OWNER |
| SentryPrivileges.ExpectedNonEmptyFields | src/kudu/master/sentry_privileges_fetcher.h:207-211 | A field is expected non-empty iff it is the scope or above it |
| SentryPrivileges.ExpectedEmptyFields | src/kudu/master/sentry_privileges_fetcher.h:213-217 | A field is expected empty iff it is below the scope |
| SentryPrivileges.ExpectedFieldsPartition | src/kudu/master/sentry_privileges_fetcher.h:207-217 | The two sets partition the four fields, grow with the scope, always contain SERVER and contain COLUMN only at COLUMN scope |
| SentryPrivileges.ScopeNamesSetMeans | src/kudu/master/sentry_privileges_fetcher.h:76-90 | The constructor's fall-through checks hold iff every expected non-empty name field is non-empty |
| SentryPrivileges.NewAuthorizablePrivileges | src/kudu/master/sentry_privileges_fetcher.h:66-92 | A new object has all_with_grant false, no allowed actions, the given names, and non-empty db/table/column names as its scope requires |
| SentryPrivileges.SentryPrivilegeIsWellFormed | src/kudu/master/sentry_privileges_fetcher.h:193-205 | A well-formed privilege yields its scope and its parsed action |
| SentryPrivileges.WellFormedPrivilegeMatches | src/kudu/master/sentry_privileges_fetcher.h:193-217 | A well-formed privilege's fields at or above its scope are non-empty and equal the requested field wherever the request sets it; the fields below are empty. So it names an ancestor or a descendant of the request |
| SentryPrivileges.WellFormedWhenFieldsAgree | src/kudu/master/sentry_privileges_fetcher.h:193-217 | Conversely, a parseable scope and action is well formed when the privilege sets exactly the fields of its scope and above, and each of them equals the requested field wherever the request sets it; descendants are included |
| SentryPrivileges.DescendantWellFormed | src/kudu/master/sentry_privileges_fetcher.h:193-200 | A TABLE privilege on (s, d, t) is well formed for a request on the database (s, d): a descendant is accepted |
| ToolTables.AddRowReadsBack | src/kudu/tools/tool_action_common.cc:749-755 | After AddRow the table stays rectangular, has one more row, the new row reads back as given, and earlier rows are unchanged |
| ToolTables.AddColumnExtendsRows | src/kudu/tools/tool_action_common.cc:757-763 | After AddColumn every earlier row gains the new column's cell at its end |
| ToolTables.PrintTable | src/kudu/tools/tool_action_common.cc:729-740 | The loops write each row's cells joined by the separator and ended by a newline |
| ToolTables.TableTextLines | src/kudu/tools/tool_action_common.cc:729-740 | The output is the row lines joined by newlines, plus a final newline |
| ToolTables.PrintTableParses | src/kudu/tools/tool_action_common.cc:729-740 | When no cell holds the separator or a newline, splitting the output by lines and then by separator gives back every row |
| ToolTables.MaxLength | src/kudu/tools/tool_action_common.cc:655-658 | The accumulated width is the maximum of the start value and every cell length |
| ToolTables.Width | src/kudu/tools/tool_action_common.cc:653-660 | A column's width is at least its header and every cell |
| ToolTables.HeaderPiece | src/kudu/tools/tool_action_common.cc:662-668 | A header cell is padding/2 spaces, a space, the header, then (padding+1)/2 spaces and " |" except after the last column |
| ToolTables.DashPiece | src/kudu/tools/tool_action_common.cc:670-676 | A separator cell is width+2 dashes, then "+" except after the last column |
| ToolTables.DataPiece | src/kudu/tools/tool_action_common.cc:678-691 | A data cell is a space, the value, then padding spaces and " |" except after the last column |
| ToolTables.HeaderRow | src/kudu/tools/tool_action_common.cc:662-668 | The header loop writes the pretty header line |
| ToolTables.SeparatorRow | src/kudu/tools/tool_action_common.cc:670-676 | The separator loop writes the pretty separator line |
| ToolTables.DataRow | src/kudu/tools/tool_action_common.cc:678-691 | The row loop writes the pretty data line of that row |
| ToolTables.PrettyPrintTable | src/kudu/tools/tool_action_common.cc:646-692 | Writes nothing for no columns; otherwise header, separator and every data row, each newline-terminated |
| ToolTables.HeadersAligned | src/kudu/tools/tool_action_common.cc:662-668 | Every header cell has exactly its column's width + 2 characters before its separator |
| ToolTables.DashesAligned | src/kudu/tools/tool_action_common.cc:670-676 | Every dash run is exactly width + 2 long |
| ToolTables.DataAligned | src/kudu/tools/tool_action_common.cc:678-691 | Every data cell has exactly its column's width + 2 characters before its separator |
| ToolTables.PrettyCellAt | src/kudu/tools/tool_action_common.cc:678-691 | A row shows each value one space after its column's start offset |
| ToolTables.PrettyBarsAlign | src/kudu/tools/tool_action_common.cc:662-691 | The header's and every row's "|" and the separator's "+" fall at the same column positions |
| ToolTables.ParseFormat | src/kudu/tools/tool_action_common.cc:766-777 | An unknown format is InvalidArgument "unknown format (--format): " followed by the flag |
| ToolTables.ParseFormatAccepts | src/kudu/tools/tool_action_common.cc:766-777 | A format is accepted iff it equals pretty, space, tsv, csv or json ignoring case, and case variants choose the same format |
| ToolTables.DataTable.constructor | src/kudu/tools/tool_action_common.cc:744-747 | One empty column per column name |
| ToolTables.DataTable.AddRow | src/kudu/tools/tool_action_common.cc:749-755 | Requires a row of the table's width and appends cell i to column i |
| ToolTables.DataTable.AddColumn | src/kudu/tools/tool_action_common.cc:757-763 | Requires the column to match the row count once rows exist; appends the name and the column |
| ToolTables.DataTable.PrintTo | src/kudu/tools/tool_action_common.cc:765-780 | Pretty, space/tab/comma-separated or JSON output as chosen by the format, or the format error; the table is not changed |
| ToolTables.AnyMatches | src/kudu/tools/tool_action_common.cc:493-496 | True iff some pattern matches |
| ToolTables.MatchesAnyPattern | src/kudu/tools/tool_action_common.h:143-145 | True iff the pattern list is empty or some pattern matches |
| ToolTables.GetClusterName | src/kudu/tools/tool_action_common.cc:304-315 | Returns a name iff the argument starts with '@', and "@" + name is the argument |
| ToolTables.ClusterNameRoundTrip | src/kudu/tools/tool_action_common.h:158-168 | "@" followed by any name is read as that cluster name |
| AsciiStrings.SplitJoin | src/kudu/tools/tool_action_common.cc:729-740 | Splitting a join on a separator that no part contains gives the parts back |
| AsciiStrings.IEqualsCharwise | src/kudu/sentry/sentry_action.cc:75-92 | Case-insensitive equality (boost::iequals) holds iff the strings agree after upper-casing each character |

## Left out

- Floating point: getFloat/setFloat/getDouble/setDouble.
- Charset conversions (UTF8, ISO88591, getString, fromString) and hex, which depend on the JDK charsets and Guava.
- pretty(ChannelBuffer) and the Netty reflection code.
- The DataInput/DataOutput functions readByteArray and writeByteArray.
- BytesVarint.PutVarInt32: putVarInt32 writes into a ByteBuffer. The model returns the bytes it would append. The buffer's remaining capacity is not modelled, nor the BufferOverflowException that ByteBuffer.put throws when the buffer is too short, after a partial write. The same holds for BytesVarint.PutVarInt32Fixed.
- The decimal functions, whose DecimalUtil sizes are not part of this model.
- getBoolean, getByte, getUnsignedByte, setUnsignedByte and the from* allocating wrappers: each is a one-line form of a modelled getter or setter.
- The block cache implementation (cache.cc) is not part of this model. The shard is reconstructed from what the tests observe. Left out of it:
  - multi-shard routing;
  - locking;
  - memory-tracker metrics (the TrackMemory test);
  - the NVM allocator.
- BlockCache.CacheShard.Invalidate: it consults the advance function before each entry. The test with a never-advancing function (src/kudu/util/cache-test.cc:372-398) removes nothing even though every entry is invalid, and this ordering makes that hold.
- CacheScenarios: HeavyEntries' tolerance (capacity + capacity/10) is stated as the stronger usage ≤ capacity in CacheModel.Evict.
- CacheScenarios: the LRU scenario is covered by two lemmas rather than the full loop. LookupRecency says a looked-up entry becomes the newest. InsertKeepsNewest says the newest entry survives the next insert.
- Block Bloom filter:
  - the SSE and AVX2 paths are modelled as the word-wise OR and AND of the scalar code;
  - MaxNdv, MinLogSpace and FalsePositiveProb are floating point;
  - Rehash32to32 and the kRehash salts live in block_bloom_filter.h, which is not part of this model, so they are parameters of the filter;
  - the buffer allocator is reduced to a success flag.
- ColumnPredicate:
  - Merge, Simplify and the factories other than Range have no bodies in the header;
  - BloomFilter::MayContainKey is a parameter function per filter;
  - DataTypeTraits::Compare is an abstract total order;
  - null cells are outside EvaluateCell and are not modelled.
- ColumnPredicates.RangePredicate: the header allows a range to be simplified to an Equality "if possible", meaning when the upper bound is the successor of the lower. Successors depend on the column type's traits, which the abstract order does not have, so such a range stays a Range. It accepts the same cells as the Equality would.
- SentryAction: the action-name constants live in sentry_action.h, which is not part of this model. They are taken to be the upper-case names of the enum values.
- SentryPrivileges: the fetcher itself is left out, meaning the Sentry client, the TTL cache, locks and pending requests. The body of SentryPrivilegeIsWellFormed is in the .cc file, which is not part of this model, so it follows the header comment: a privilege is accepted when it names an ancestor or a descendant of the request, with fields compared by exact string equality where both are set.
- ToolTables:
  - JsonPrintTable, which uses the JSON writer library, is a parameter of PrintTo;
  - MatchPattern is a parameter of MatchesAnyPattern;
  - ParseMasterAddressesStr's KUDU_CONFIG/YAML lookup is left out;
  - output streams are modelled as growing strings;
  - ToolTables.PrettyPrintTable writes whole padded cells rather than separate setw calls, with the same resulting text.
- BytesPretty.PrettyAmbiguous is stated as a property of pretty's output rather than as a defect: pretty is a debugging aid and promises no inverse.

## Findings

| source | as written | input that shows it | evidently intended | confidence | as-written member | corrected member |
|---|---|---|---|---|---|---|
| java/kudu-client/src/main/java/org/apache/kudu/client/Bytes.java:381-383 | The two-byte branch of putVarInt32 writes its second byte as `(v >> 7) \| 0x80`, with the continuation bit set on the last byte | v = 300 is written as [0xAC, 0x82]; readVarInt32 then expects a third byte and fails (IndexOutOfBounds on a two-byte buffer), or misreads a following byte | The last byte without the continuation bit, `(byte)(v >> 7)`, i.e. [0xAC, 0x02], which reads back as 300 | not executed | BytesVarint.PutVarInt32Counterexample | BytesVarint.VarIntRoundTrip |
