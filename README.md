# md5lamacz in Dafny

md5lamacz is a dictionary attack on a store of MD5 password digests. It loads a
dictionary of words, lower-cases each word and drops repeats. It then loads
credential records (id, email, 32-digit hexadecimal digest) into a multimap from
digest to email. The dictionary is split into one slice per hardware thread.
Each producer thread applies three mutation rules (SINGLE_WORD_FUNCTORS) to every
word of its slice, round after round. In round r > 0 each candidate gets the
decimal suffix r - 1. A candidate whose digest is a key of the multimap is
recorded. When the run flag is cleared, every recorded candidate is printed with
each account its digest maps to.

The model covers:

- `Words`: 64-bit words as byte lists, and `swapBytes`.
- `Hex`: `std::stoull(s, nullptr, 16)` and `std::hex` output.
- `Decimals`: `std::to_string` of a round number.
- `Case`: `toUpper` and `toLower`, in place on a character array.
- `Digests`: the `Hash` value type: its default constructor, its construction
  from the MD5 bytes, `==`, `storeHash`, `operator<<` and `HashMapFunctor`.
- `PasswordMaps`: `PasswordMap` as an insertion-ordered list of (digest, email)
  entries, with `find` and `equal_range`.
- `Rules`: the three mutation rules and SINGLE_WORD_FUNCTORS.
- `Dictionary`: what `loadDictionary` keeps.
- `Partition`: the slice arithmetic shared by `launchProducerThreads` and
  `ThreadManager::launchProducers`.
- `Engine`: the globals of main.cpp as the class `Cracker`, with `loadDictionary`,
  the functor loop, one producer pass, `threadMain`, `launchProducerThreads`,
  `loadPasswords` and the final report.
- `ThreadManagers`: `ThreadManager` and its `launchProducers`.

The MD5 primitive is a parameter `md5: string -> Digest16`. SINGLE_WORD_FUNCTORS
is a constant of `Cracker` built from it. The host is taken to be little-endian,
which is what `storeHash`'s byte swap assumes.

The run flag is an input in the model. `ProducerPass` reads it false from word
`stopAt` on. `ThreadMain` reads it true for every round before `stopRound`, and
false from word `stopAt` of round `stopRound` on. A stopped pass adds
`end - it` to `n`. A full pass adds the size of the whole dictionary to `n`, not
the size of its own slice. Both are modelled as written.

Both launchers are specified by the same function `Partition.Slices`, so they
produce identical slices. `SlicesExactCover` proves those slices cover the
dictionary with no gap and no overlap. `toUpper` and `toLower` are defined in
both main.cpp and hash.cpp with identical bodies. They are modelled once, in
`Case`.

Rule 2 writes `str[0] = toupper(str[0])`. On an empty word, `str[0]` is the
terminating null character, which `toupper` leaves as it is. So rule 2 on an
empty word is the empty string plus the suffix, and no precondition excludes it.

`storeHash` on text of 16 or fewer characters does not produce a digest. Below
16 characters `substr(16)` throws `std::out_of_range`. At exactly 16 the result
is `std::invalid_argument`: the first `stoull` throws it when the text does not
start with a hexadecimal digit, and otherwise the second `stoull` throws it,
since it is handed an empty string. Both are modelled as errors
(`StoreHashShortFails`). `LoadPasswords` passes the first such error on.

An empty dictionary (a missing or empty dictionary file) gives a single producer
the empty slice [0, 0) (`SlicesCount`). On that slice `threadMain` never reads
the run flag (`EmptySliceNeverStops`), so it never returns and `main` waits in
`join` for ever. `ThreadMain` is therefore specified for non-empty slices only.

The source's `ThreadManager` constructor takes only the password map, and
`launchProducers` reads the global dictionary. The model's constructor takes the
dictionary instead, because the model has no globals outside `Cracker`.

Dafny's `char` stands for the source's `char`, a byte, and case mapping uses the
C locale: only the ASCII letters change. Rule 2 upper-cases character 0 of the
word, which is the same as upper-casing its first byte.

## Model

| member | source | states |
|---|---|---|
| Words.SwapBytes | hash.cpp:20-27 | the little-endian bytes of the result are those of the input, reversed |
| Words.SwapBytesInvolution | hash.cpp:20-27 | swapping twice gives back the input |
| Words.SwapBytesInjective | hash.cpp:20-27 | two words swap to the same word iff they are equal |
| Words.SwapBytesOfBE | hash.cpp:53-54 | swapping a big-endian load of 8 bytes gives their little-endian load, and both fit in 64 bits |
| Words.FromLEToLE | hash.cpp:35-40 | loading the k little-endian bytes of x gives back x when x < 256^k |
| Words.ToLEFromLE | hash.cpp:35-40 | storing the load of a byte list gives back the same bytes |
| Words.FromBEIsReversedLE | hash.cpp:53-54 | a big-endian load is the little-endian load of the reversed bytes |
| Case.ToUpper | main.cpp:37-43 | the array afterwards holds the upper-cased old contents, character for character |
| Case.ToLower | main.cpp:44-50 | the array afterwards holds the lower-cased old contents, character for character |
| Case.UpperProperties | hash.cpp:65-71 | the result is upper case, upper-casing is idempotent, and a string is unchanged iff it is already upper case |
| Case.LowerProperties | hash.cpp:73-79 | the result is lower case, lower-casing is idempotent, and a string is unchanged iff it is already lower case |
| Case.CaseAbsorption | hash.cpp:65-79 | lower-casing after upper-casing equals lower-casing alone, and the reverse |
| Hex.LowerDigit | hash.cpp:60-61 | std::hex writes a lower-case digit whose value is the one printed |
| Hex.HexPrefixLen | hash.cpp:53-54 | stoull reads the longest prefix of hexadecimal digits, and the character after it is not one |
| Hex.Stoull16StopsAtNonDigit | hash.cpp:53-54 | text after the leading hexadecimal digits does not change the result: no digit gives invalid_argument, and digits denoting less than 2^64 give their value |
| Hex.Stoull16OfDigits | hash.cpp:53-54 | 1 to 16 hexadecimal digits always parse, to their value |
| Hex.HexValueBound | hash.cpp:53-54 | k hexadecimal digits denote less than 16^k |
| Hex.ToHexLength | hash.cpp:60-61 | a value below 16^k is printed in at most k digits |
| Hex.ToHex | hash.cpp:60-61 | std::hex output is non-empty lower-case hexadecimal, denotes the value, and has no leading zero except for "0" itself |
| Hex.ToHexOfHexValue | hash.cpp:60-61 | printing the value of a canonical lower-case digit string gives back the string |
| Hex.HexValueOfEncode | hash.cpp:53-54 | the value of the two-digit-per-byte hexadecimal text of some bytes is their big-endian load |
| Decimals.Decimal | main.cpp:60 | std::to_string gives canonical decimal digits denoting the value |
| Decimals.DecimalOfValue | main.cpp:60 | reading a canonical digit string and printing it gives it back |
| Decimals.DecimalInjective | main.cpp:60 | two numbers print alike iff they are equal |
| Digests.FromDigestBytes | hash.cpp:35-40 | the two words hold the first and last 8 MD5 bytes, least significant byte first |
| Digests.Equal | hash.cpp:42-45 | operator== holds iff both words agree, that is iff the two digests are equal |
| Digests.EqualIsEquivalence | hash.cpp:42-45 | operator== is reflexive, symmetric and transitive |
| Digests.StoreHashShortFails | hash.cpp:47-56 | fewer than 16 characters fail with out_of_range, and exactly 16 with invalid_argument |
| Digests.StoreHashOfDigits | hash.cpp:47-56 | on 32 hexadecimal digits the two halves fit in 64 bits, and the words are their byte-swapped values |
| Digests.StoreHashEqualIff | hash.cpp:47-56 | two 32-digit texts give equal digests iff they denote the same two numbers, ignoring letter case |
| Digests.StoreHashOfEncodedDigest | hash.cpp:35-56 | parsing the hexadecimal text of an MD5 output gives the digest that Hash(password) builds from it |
| Digests.StoreHashOfZeros | hash.cpp:29-33 | 32 zeros parse to the default Hash(), whose words are both zero |
| Digests.FormatOfStoreHash | hash.cpp:58-63 | printing a parsed digest writes each half's value in std::hex |
| Digests.FormatRoundTrip | hash.cpp:47-63 | a lower-case digest text whose halves do not start with 0 prints back as itself |
| Digests.FormatRoundTripIff | hash.cpp:47-63 | for every 32-digit text, the printed form equals the text iff the text is lower case and neither half starts with 0 |
| Digests.FormatDropsLeadingZeros | hash.cpp:58-63 | the all-zero digest prints as "00", not as 32 zeros |
| Digests.HashMapFunctorConsistent | hash.h:41-47 | equal digests land in the same bucket |
| Digests.HashMapFunctorCollides | hash.h:45 | the bucket is symmetric in the two words and zero when they are equal, while the swapped digest is a different key |
| PasswordMaps.ContainsIffEqualRange | main.cpp:100 | find(h) != end() iff equal_range(h) is non-empty |
| PasswordMaps.EqualRangeMembership | main.cpp:179 | equal_range(h) yields an account iff (h, account) was inserted |
| PasswordMaps.EqualRangeInsertAll | hash.h:49 | inserting several accounts under one digest adds all of them to its range, keeping the accounts already there |
| PasswordMaps.EqualRangeInsertOther | hash.h:49 | inserting under a different digest leaves a digest's range unchanged |
| Rules.RoundSuffix | main.cpp:56-61 | round 0 appends nothing; round r > 0 appends canonical digits denoting r - 1 |
| Rules.AsIsOrSuffix | main.cpp:54-63 | the candidate is the word followed by the round suffix, and the pair's digest is that of the candidate |
| Rules.CapitalizeOrSuffix | main.cpp:64-72 | the candidate has the word's first character upper-cased and the rest unchanged, then the round suffix; the digest is that of the candidate |
| Rules.UpperOrSuffix | main.cpp:73-81 | the candidate is the upper-cased word, then the round suffix; the digest is that of the candidate |
| Rules.SingleWordFunctors | main.cpp:52-82 | three functors, each appending the round suffix to a stem of the word's length and pairing the candidate with its own digest |
| Rules.RoundSuffixDeterminesRound | main.cpp:56-81 | a candidate's suffix determines the round it was made in |
| Rules.FunctorRoundsDiffer | main.cpp:90-113 | a functor makes different candidates from the same word in different rounds |
| Dictionary.DedupProperties | main.cpp:149-157 | the dictionary has no repeats, holds exactly the words read, and keeps them in order of first occurrence |
| Dictionary.DedupOfLowerIsLower | main.cpp:151-159 | every dictionary word is lower case |
| Dictionary.DedupIgnoresCase | main.cpp:151-157 | two tokens that differ only in case make the dictionary shorter than the token list |
| Dictionary.DedupShorter | main.cpp:154-156 | a repeated word makes the result shorter than the input |
| Dictionary.DedupNotLonger | main.cpp:154-156 | the result is never longer than the input |
| Dictionary.FirstIndexExtend | main.cpp:154-156 | appending a word does not move the first occurrence of an earlier word, and a new word first occurs at the end |
| Partition.ThreadCount | main.cpp:119 | at least one thread: exactly hardware_concurrency when that is non-zero, and one when it is zero |
| Partition.EqualSlicesAt | main.cpp:123-125 | the i-th equal slice is [s*i, s*(i+1)) |
| Partition.SlicesCount | thread_manager.cpp:42-57 | n slices, or the single slice [0, size) when there are fewer words than threads |
| Partition.SlicesEqualPart | thread_manager.cpp:49-55 | each of the first n-1 slices holds size/n words, starting at k*(size/n) |
| Partition.SlicesLast | thread_manager.cpp:56 | the last slice ends at the dictionary's end and holds size/n + size%n words |
| Partition.SlicesChain | main.cpp:117-129 | the slices are well formed, start at 0, end at size, and each starts where the previous one ends |
| Partition.ChainIsExactCover | main.cpp:117-129 | a chain of slices covers its range, no two slices share an index, and none leaves the range |
| Partition.SlicesExactCover | main.cpp:117-129 | every dictionary index lies in exactly one producer's slice, and no slice reaches past the dictionary |
| Engine.Cracker.constructor | main.cpp:84-89 | the dictionary and found list start empty, the counter at zero, and the functors are SINGLE_WORD_FUNCTORS |
| Engine.Cracker.LoadDictionary | main.cpp:144-161 | the dictionary becomes the lower-cased tokens with repeats removed, in order of first occurrence |
| Engine.Cracker.TryRules | main.cpp:98-104 | found gets the products of the three functors on the word whose digest is a key of the map, in functor order |
| Engine.Cracker.ProducerPass | main.cpp:95-112 | it stops iff some word of the slice is at or after the flag position; found gets the hits of exactly the words processed; a stopped pass adds end - it to n and keeps the round; a full pass adds the dictionary's size and moves to the next round |
| Engine.Cracker.ThreadMain | main.cpp:90-114 | it returns in round stopRound, or stopRound + 1 when the flag comes after the slice; found gets the hits of every full round and then of the last, partial pass; n grows by the dictionary's size per full round plus the words left in the slice at the stop |
| Engine.Cracker.LaunchProducerThreads | main.cpp:117-129 | one slice per producer thread is appended, as Partition.Slices gives them |
| ThreadManagers.ThreadManager.constructor | thread_manager.cpp:25-29 | the manager starts with no producers |
| ThreadManagers.ThreadManager.LaunchProducers | thread_manager.cpp:42-57 | moving a window of size/n words forward appends exactly the slices Partition.Slices gives, the same as launchProducerThreads |
| Engine.ProcessedEnd | main.cpp:105-109 | the words a pass processes end within its slice |
| Engine.RuleHitsMembership | main.cpp:98-104 | a pair is recorded for a word iff some functor produced it and its digest is a key of the map |
| Engine.PassHitsWitness | main.cpp:97-110 | every hit of a pass comes from one of the words it processed |
| Engine.PassHitsInclude | main.cpp:97-110 | every hit of a processed word is a hit of the pass |
| Engine.PassHitsMembership | main.cpp:97-110 | a pair is a hit of a pass iff it is a hit of one of the words the pass processed |
| Engine.PassHitsSplit | main.cpp:97-110 | the hits of a pass are those of its first part followed by those of the rest, so earlier words come first |
| Engine.WordHitsInRuleOrder | main.cpp:98-104 | a word's hits are those of the as-is rule, then the capitalising rule, then the upper-casing rule |
| Engine.EmptySliceNeverStops | main.cpp:97 | a pass over an empty slice never reads the flag, so it never stops |
| Engine.LoadPasswords | main.cpp:131-142 | Ok iff every record's digest text parses; on error, the error is that of the first failing record; on success, the old entries are kept and one entry with the parsed digest and email is added per record, in order |
| Engine.LoadedAccounts | main.cpp:139 | after loading, equal_range(h) yields exactly the emails of the records whose digest text parses to h |
| Engine.ReportLinesMembership | main.cpp:177-186 | a (candidate, account) line is printed iff some found pair has that candidate and its digest was inserted with that account |
| Engine.AdminScenario | main.cpp:64-72 | with dictionary ["admin", "test"] and one account holding the digest of "Admin1", round 2 finds "Admin1", finds nothing with another digest, and reports that account |

## Left out

- Threads, the mutex of foundPasswords and the atomics `run` and `n`. A producer
  pass runs on its own, and the interleaving of the threads' appends is not modelled.
- The run flag and `main`'s six-second sleep: the flag is an input (`stopRound`, `stopAt`).
- The MD5 primitive from OpenSSL (hash.cpp:35-40) is a parameter. How
  `Hash(password)` lays the 16 bytes out in the two words is modelled.
- File streams. `loadDictionary` takes the tokens the stream would yield, and
  `loadPasswords` takes the records. The `good()` test after each read drops a
  last token or record that ends at end of file without trailing whitespace; this
  is not modelled. The id column is read and discarded by the source, and the
  model does not parse it.
- The locale: `toupper` and `tolower` are modelled for ASCII letters only.
- The division `n.load() / 6.0` and the printing of the rate (main.cpp:187): floating point.
- Hex.Stoull16: stoull's skipping of leading whitespace, its sign and its optional
  "0x" prefix are not modelled; the text storeHash sees is digits from the store.
- The round counter and `n` are unbounded naturals: 64-bit wrap-around cannot be
  reached in practice.
- The bucket layout and iteration order of `std::unordered_multimap`. PasswordMap
  is an insertion-ordered list. `equal_range` is modelled in insertion order, while
  the source leaves the order of equal keys unspecified.
- thread_manager.h, the ThreadManager destructor and `stopProducers` (joining
  threads), and `launchConsumer`, whose body is empty (thread_manager.cpp:37-40).
- The producers of both launchers are represented by their slices, not by threads.
- Engine.Cracker.ThreadMain requires a non-empty slice. On an empty slice
  `threadMain` never reads the flag and never returns (`EmptySliceNeverStops`).
  Only an empty dictionary gives a producer an empty slice.
- The functors' dictionary argument: none of the three reads it.
