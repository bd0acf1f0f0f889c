# Separately chained string hash table

A model of a fixed-capacity hash table of strings with separate chaining.
The table has `HASH_TABLE_SIZE` buckets. Each bucket is a list of strings kept
in insertion order, and duplicates are stored twice. Alongside the buckets the
table keeps three counters: `collisions`, `longestList` and
`runningAvgListLength`.

The model has four modules:

- `HashFunction` (hash_function.dfy) models `Hash::hf`. It keeps a 32-bit
  accumulator as a `bv32`. For each byte it adds the byte with wrap-around and
  then rotates the accumulator left by five bits. The index is the final
  accumulator modulo the table size. The method `Hf` runs the source's loop,
  and the function `HashIndex` specifies it as a fold.
- `TableModel` (table_model.dfy) describes the table as a value `State`: the
  buckets plus the three counters. Insert, remove, search and loading a token
  sequence are functions from the old state to the new one. The properties
  are lemmas about these functions: placement of each string in the bucket
  its hash names, first-occurrence removal, the collision rule, the legacy
  `longestList` rule, and what a loaded bucket contains.
- `Render` (render.dfy) builds the text of one bucket's line. That is the
  1-based bucket number in decimal, `":\t"`, then the strings joined by
  `", "`.
- `HashTable` (hash_table.dfy) models the `Hash` class. It holds an array of
  buckets and the counters as fields, and its methods update them in place.
  Every method is proved to follow the matching `TableModel` or `Render` function.

Strings are byte sequences (`seq<bv8>`), since `hf` reads `unsigned char`s.
`HASH_TABLE_SIZE` is defined in hash.h, which is not part of this model. It
is the constructor's `capacity` parameter, and it must be positive.

`longestList` is modelled literally. The source increments it only when the
list just pushed to is *shorter* than `longestList`. It starts at 0, so it
never moves. `TableModel.ReplayFromFresh` proves that it stays 0 after any
sequence of inserts and removes. `TableModel.LongestListMissesFirstChain`
shows it reading 0 while a bucket holds a string.

## Model

| member | source | states |
|---|---|---|
| `HashFunction.Hf` | hash_function.cpp:12-26 | The byte loop over the 32-bit accumulator returns exactly `HashIndex(input, size)`, an index below `size`. It depends on the bytes and the size only. |
| `HashFunction.HashIndex` | hash_function.cpp:25 | The index lies in `[0, size)`. The empty string hashes to 0. |
| `HashFunction.RunSnoc` | hash_function.cpp:16-21 | One more byte is one more step: add the byte mod 2^32 first, then rotate by `(x << 5) \| (x >> 27)`. |
| `HashFunction.RunAppend` | hash_function.cpp:16-22 | Folding over `s1 + s2` equals folding over `s2` from the accumulator `s1` left. |
| `HashFunction.ConcatenationIndex` | hash_function.cpp:16-25 | The index of `s1 + s2` is the accumulator of `s1` carried over `s2`, reduced mod the size. |
| `HashFunction.Rotl5IsSum` | hash_function.cpp:21 | The two shifted halves of the rotation have no bits in common, so the `\|` is a 32-bit add. |
| `HashFunction.ShiftsAsIntegers` | hash_function.cpp:21 | As integers, `x << 5` is `x*32 mod 2^32` and `x >> 27` is `x / 2^27`. |
| `HashFunction.Rotl5AsInt` | hash_function.cpp:21 | As an integer, the rotation is `x*32 mod 2^32 + x / 2^27`. |
| `HashFunction.Rotl5` | hash_function.cpp:21 | The rotation as the source writes it; its properties are stated by `Rotl5IsSum`, `ShiftsAsIntegers` and `Rotl5AsInt`. |
| `HashFunction.Step` | hash_function.cpp:17-21 | One loop turn, add then rotate; stated by `RunSnoc`. |
| `HashFunction.Run` | hash_function.cpp:16-22 | The accumulator fold; stated by `RunSnoc`, `RunAppend` and `Hf`. |
| `TableModel.Fresh` | hash.cpp:15-20 | The initial state has `capacity` buckets, all empty. |
| `TableModel.Inserted` | hash.cpp:65-83 | Insert keeps the number of buckets. |
| `TableModel.Removed` | hash.cpp:23-35 | Remove keeps the number of buckets. |
| `TableModel.RemoveFirst` | hash.cpp:26-32 | The erase of the first match; stated by `RemoveFirstAt`, `RemoveFirstAbsent`, `RemoveFirstMultiset` and `RemoveFirstLength`. |
| `TableModel.Contains` | hash.cpp:88-97 | Search on the value state; stated by `SearchIsMembership`, `SearchAfterInsert` and `LoadedSearch`, and `Hash.Search` returns it. |
| `TableModel.LegacyLongest` | hash.cpp:81-83 | The literal `size < longestList` update; stated by `ReplayFromFresh` and `LongestListMissesFirstChain`. |
| `TableModel.Load` | hash.cpp:56-84 | Loading a token sequence keeps the number of buckets. |
| `TableModel.RemoveFirstAt` | hash.cpp:26-32 | When `k` is the first position holding `s`, removal leaves exactly the entries before `k` and after it. |
| `TableModel.RemoveFirstAbsent` | hash.cpp:26-34 | Removing a string that is not in the bucket leaves the bucket unchanged. |
| `TableModel.RemoveFirstMultiset` | hash.cpp:26-32 | Removal takes away one copy of `s` (if there is one) and nothing else. |
| `TableModel.RemoveFirstLength` | hash.cpp:29-30 | The bucket shrinks by one exactly when `s` was in it. |
| `TableModel.DuplicateSurvives` | hash.cpp:29-32 | If `s` appears twice, it is still in the bucket after one removal. |
| `TableModel.RemoveFirstAfterAppend` | hash.cpp:74 | Appending an absent `s` and then removing it gives back the original bucket. |
| `TableModel.TotalUpdate` | hash.cpp:120-125 | Replacing one bucket changes the string count by that bucket's size change. The non-empty count changes only by that bucket's emptiness. |
| `TableModel.OccupiedBounds` | hash.cpp:120-125 | The number of non-empty buckets is at most the number of buckets and at most the number of strings. |
| `TableModel.InsertAppends` | hash.cpp:65-74 | Insert adds the token at the end of bucket `hf(token)` and leaves every other bucket as it was. |
| `TableModel.InsertCollision` | hash.cpp:69-71 | `collisions` rises by exactly 1 if the target bucket was non-empty, and by 0 if it was empty. |
| `TableModel.InsertConsistent` | hash.cpp:65-77 | Insert keeps every string in the bucket its hash names. The running counter stays equal to the number stored, which grows by one. |
| `TableModel.RemoveConsistent` | hash.cpp:23-35 | Remove keeps the placement invariant and the counter equality. The number stored drops by one exactly when search would find the string. |
| `TableModel.RemoveDeletesFirst` | hash.cpp:23-35 | Removing a present string deletes its first occurrence only and leaves the other buckets and `collisions` alone. It decrements `runningAvgListLength`. |
| `TableModel.RemoveAbsent` | hash.cpp:26-34 | Removing an absent string changes no part of the state. |
| `TableModel.SearchAfterInsert` | hash.cpp:88-97 | Search finds a token just inserted. |
| `TableModel.InsertThenRemove` | hash.cpp:23-35 | For a token not yet stored, insert then remove restores the buckets, and search then fails. |
| `TableModel.SearchAfterRemovingOneOfTwo` | hash.cpp:23-35 | After a token is inserted twice and removed once, search still finds it. |
| `TableModel.SearchIsMembership` | hash.cpp:88-97 | Under the placement invariant, search holds exactly when the string is stored in some bucket. |
| `TableModel.LoadBuckets` | hash.cpp:56-84 | After loading, bucket `i` holds its old contents followed by the tokens that hash to `i`, in input order. |
| `TableModel.LoadFreshBucket` | hash.cpp:56-84 | After loading a fresh table, bucket `j` holds exactly the tokens that hash to `j`, in input order. |
| `TableModel.SelectedMembers` | hash.cpp:65-74 | A string is among the tokens routed to bucket `i` exactly when it is one of the tokens and hashes to `i`. |
| `TableModel.LoadedSearch` | hash.cpp:88-97 | After loading a fresh table, search finds a string exactly when it was one of the tokens, so a never-inserted token is not found. |
| `TableModel.LoadCollisions` | hash.cpp:69-77 | Loading adds one collision for each token that lands in an occupied bucket. The collision gain equals the gain in (strings stored minus non-empty buckets), and the strings stored grow by the number of tokens. |
| `TableModel.LoadTwiceDoubles` | hash.cpp:56-84 | Loading the same tokens twice into a fresh table doubles each bucket's contents, and the second load adds exactly one collision per token. |
| `TableModel.OccupiedSameShape` | hash.cpp:120-125 | Two tables whose buckets are empty in the same places have the same number of non-empty buckets. |
| `TableModel.LoadConsistent` | hash.cpp:56-84 | Loading keeps the placement invariant and the counter equality. |
| `TableModel.ReplayFromFresh` | hash.cpp:17 | From the fresh table, every sequence of inserts and removes keeps the invariants, and `longestList` stays 0 because its guard `size < longestList` never fires. |
| `TableModel.LongestListMissesFirstChain` | hash.cpp:81-83 | After one insert a bucket holds a string, but `longestList` is still 0. |
| `TableModel.SevenBucketScenario` | hash.cpp:65-74 | With 7 buckets, "a" and "h" land in bucket 3 in that order and "c" in bucket 4, with 1 collision. |
| `Render.DigitValue` | hash.cpp:40 | A digit byte's value lies below 10 and maps back to that digit. |
| `Render.Decimal` | hash.cpp:40 | The bucket number is written as a non-empty string of digits with no leading zero. |
| `Render.DecimalRoundTrip` | hash.cpp:40 | Reading the decimal text back gives the number. |
| `Render.JoinSnoc` | hash.cpp:42-44 | Appending one more string to the line adds `", "` and then the string. |
| `Render.SplitJoin` | hash.cpp:42-44 | For strings without spaces, which is what `>>` yields, cutting a joined line at `", "` gives back the bucket's strings. |
| `Render.JoinEndsWithLast` | hash.cpp:42-44 | The line ends with the last string, with no trailing separator. |
| `Render.Join` | hash.cpp:41-44 | The strings joined by `", "`; stated by `JoinSnoc`, `SplitJoin` and `JoinEndsWithLast`. |
| `Render.Line` | hash.cpp:40-45 | The bucket number plus one, `":\t"`, then the joined strings; `Hash.RenderBucket` builds it. |
| `HashTable.Hash.constructor` | hash.cpp:15-20 | Builds all-empty buckets with counters 0. |
| `HashTable.Hash.Insert` | hash.cpp:65-83 | The new state is `Inserted(old state, token)`: the token is pushed onto its bucket, other buckets are unchanged, the collision rule applies, the counter goes up by 1, and the literal `longestList` rule is applied. |
| `HashTable.Hash.ProcessFile` | hash.cpp:50-85 | The new state is `Load(old state, tokens)`. A `longestList` of 0 stays 0. |
| `HashTable.Hash.Search` | hash.cpp:88-97 | Returns true exactly when the string is in bucket `hf(input)`, which is exactly when it is stored anywhere. Nothing is changed. |
| `HashTable.Hash.Remove` | hash.cpp:23-35 | The new state is `Removed(old state, input)`. `collisions` and `longestList` are unchanged. |
| `HashTable.Hash.StatsScan` | hash.cpp:117-125 | `sum` is the number of strings stored, which equals the running counter. `non_empty` is the number of non-empty buckets, at most `sum` and at most the capacity, and it is 0 exactly when every bucket is empty. |
| `HashTable.Hash.RenderBucket` | hash.cpp:40-45 | The line for bucket `i` is `(i+1) ":\t"` followed by the bucket's strings joined with `", "`. |
| `HashTable.Hash.Print` | hash.cpp:38-47 | There is one line per bucket, in bucket order, as `RenderBucket` states. `output` (hash.cpp:105-112) writes the same lines. The terminators `endl` (hash.cpp:45) and `"\n"` (hash.cpp:111) are left to the writer. |

## Left out

- File and console I/O are not modelled. That covers opening the input and output files, `>>` tokenising, writing to `cout` or the file, and the line terminators `endl` and `"\n"` (hash.cpp:45, 51-62, 101-103, 111, 131-133). `ProcessFile` takes the token sequence instead, and `Print` returns the lines without terminators.
- One stream quirk is not modelled: when the last token has no trailing whitespace, `good()` turns false after it is read and the loop drops it (hash.cpp:57-62).
- The floating-point part of `printStats` is not modelled: `currentAvgListLen = sum / non_empty`, which divides by zero on an empty table, and the blending `(x + y) / 2.0` (hash.cpp:127-129). So `runningAvgListLength` is an integer that insert raises by 1 and remove lowers by 1. In this model it always equals the number of stored strings; in the source, `printStats` changes it.
- The counters are unbounded: `collisions`, `longestList` and the `unsigned int` sum in `printStats` do not wrap at 2^32.
- hash.h is not part of this model. `HASH_TABLE_SIZE` is a positive parameter, and the declared types of the counters are assumed to be unsigned integers.
