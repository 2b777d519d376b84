# HTTP/2 server push and the HTTP/1 response filters of mod_http2, in Dafny

This project models two parts of Apache httpd's mod_http2 as pure Dafny functions and proves what they promise.

The first part is server push (`modules/http2/h2_push.c`):

- **Link scanner.** A cursor-driven reader for the `Link` response header (the link-value grammar of section 5 of RFC 5988, with parameter names made of RFC 5987 attr-chars). It never backtracks.
- **Candidate filter.** It turns `rel=preload` links of the same authority into push requests (`add_push`, `h2_push_collect`).
- **Push diary.** A bounded, recency-ordered list of 64-bit hashes of what was already pushed. It supports find, move-to-last, FIFO eviction and the update that drops repeated pushes.
- **Cache digest.** A Golomb-Rice coded set of the diary's hashes, as in draft-kazuho-h2-cache-digest. Two header bytes, then the gaps of the sorted, de-duplicated hashes. Each gap is a unary quotient, a 0 bit and `log2p` remainder bits, packed most significant bit first into bytes padded with 1 bits.

The second part is the pure logic of the HTTP/1 filters of a secondary connection (`modules/http2/h2_c2_filter.c`):

- **Vary merging.** De-duplication of `Vary` tokens, ignoring case (`uniq_field_values`, `fix_vary`).
- **Status lines.** Recognition of the `HTTP/x.y nnn` and `HTTP/x nnn` forms (`parse_status`).
- **Header lines.** Folding of continuation lines (`parse_header`) and splitting at the first ':' (`make_table`).
- **Response parser.** The `STATUS_LINE` → `HEADER_LINE` → pass state machine, which lets interim (1xx) responses through until a final one arrives.
- **Chunked framing.** The framing of request bodies (`make_chunk`, `read_and_chunk`, `ser_header`): `hex-size CRLF data CRLF` per run of data, then a last chunk with the trailer fields.

## Files and modules

| file | module | contents |
|---|---|---|
| common.dfy | `Common` | `Option`, `byte`, ASCII character classes, case-insensitive equality, string joins |
| apr_table.dfy | `AprTable` | `apr_table_t` as a list of entries: get (first match ignoring case), setn, merge |
| link_scanner.dfy | `LinkScanner` | the readers `skip_ws` … `read_sep` and `inspect_link` |
| link_format.dfy | `LinkFormat` | a writer for link-values and the proof that the scanner reads its output back |
| push.dfy | `Push` | `policy_str`, `has_param`, `has_relation`, `same_authority`, `set_push_header`, `add_push`, `head_iter`, `h2_push_collect` |
| diary.dfy | `PushDiary` | `ceil_power_of_2`, `diary_create`, find, move_to_last, remove_first, append, update, the two hash functions |
| golomb.dfy | `Golomb` | the Golomb-Rice code word of one gap, the bit string of a set, and a decoder for it |
| digest_bytes.dfy | `DigestBytes` | `gset_encode_bit` on bytes, and bits packed into bytes |
| digest.dfy | `CacheDigest` | `h2_push_diary_digest_get`: parameters, sorting, de-duplication, encoding, and a decoder |
| vary.dfy | `Vary` | `uniq_field_values`, `fix_vary` |
| response_parser.dfy | `ResponseParser` | `parse_status`, `parse_header`, `make_table`, `parse_response`/`pass_response`, the loop of `h2_c2_filter_catch_h1_out` |
| chunking.dfy | `Chunking` | `make_chunk`, `ser_header`, `read_and_chunk`, and a chunked-body decoder as its partner |

Operations that call code outside these two files take that code as a function parameter:

- `apr_uri_parse` / `apr_uri_unparse` (`parse`, `unparse`);
- SHA-256 (`sha`, returning the digest bytes);
- `apr_hashfunc_default` (`aprh`, returning 32 bits);
- `h2_util_ignore_header` (`ignore`).

Several properties rest on a partner definition written independently of the code:

- the link-value writer `LinkFormat.Format`;
- the Golomb-Rice decoder `Golomb.DecodeSet`;
- the digest reader `CacheDigest.DecodeDigest`;
- the chunked-body decoder `Chunking.Dechunk`;
- the response serializer `ResponseParser.Serialize`;
- the comma join `Common.Join`.

## Model

| member | source | states |
|---|---|---|
| Common.EqualsIgnoreCaseLower | modules/http2/h2_push.c:284-288 | comparing names ignoring ASCII case, character by character as `H2_HD_MATCH_LIT` does, is the same as comparing their lower-cased forms |
| Common.EqualsIgnoreCaseEquiv | modules/http2/h2_push.c:284-296 | case-insensitive name equality is symmetric and transitive, so every spelling of a name selects the same entries |
| AprTable.FirstMatch | modules/http2/h2_push.c:296 | the entry a lookup finds is the first one whose key matches ignoring case, and no earlier entry matches |
| AprTable.Get | modules/http2/h2_push.c:296-297 | a lookup fails exactly when no key matches, and a value it returns belongs to a matching entry |
| AprTable.SetThenGet | modules/http2/h2_push.c:466-467 | after setn the key reads back as the value just stored |
| AprTable.SetThenGetEquiv | modules/http2/h2_push.c:466-467 | after setn every spelling of the key reads back as the value just stored |
| AprTable.SetOtherKey | modules/http2/h2_push.c:466-467 | setn of one key leaves the lookup of every other key unchanged |
| AprTable.SetLeavesOneEntry | modules/http2/h2_c2_filter.c:219-220 | after setn exactly one entry carries the key, so earlier duplicates are gone |
| AprTable.SetIdempotent | modules/http2/h2_c2_filter.c:219-220 | setting a key to the value it already has changes nothing |
| AprTable.MergeThenGet | modules/http2/h2_c2_filter.c:499 | merge appends ", " and the value to the first matching entry, or adds an entry when there is none; the table grows only in the second case |
| AprTable.SetAllGet | modules/http2/h2_push.c:289 | after a series of setn calls a key reads as the last value stored for it, or as before when none was stored |
| AprTable.SetKeepsKeys | modules/http2/h2_push.c:289 | setn keeps any property that every key of the table and the new key share |
| AprTable.GetAppend | modules/http2/h2_push.c:296 | a lookup in two tables one after the other consults the second only when the first has no match |
| LinkScanner.SkipWs | modules/http2/h2_push.c:131-139 | skip_ws never moves the cursor back or past the end, and it stops on a character that is not SP or HT |
| LinkScanner.SkipWsSkipsWsp | modules/http2/h2_push.c:131-139 | skip_ws passes over nothing but SP and HT |
| LinkScanner.FindChrFirst | modules/http2/h2_push.c:141-151 | find_chr finds the first occurrence of the character and fails only when there is none |
| LinkScanner.SkipWsAndRead | modules/http2/h2_push.c:153-160 | read_chr after skip_ws succeeds exactly when the next non-blank character is the one asked for, and then moves past it |
| LinkScanner.AttrRunMaximal | modules/http2/h2_push.c:74-93 | the run of attr-chars a name is read from is maximal: all of it is attr-chars and the character after it is not |
| LinkScanner.PtokenRunMaximal | modules/http2/h2_push.c:95-129 | the same for the ptoken characters |
| LinkScanner.ReadQStringContent | modules/http2/h2_push.c:170-181 | a quoted string read is the text between two '"' characters, unescaped, and holds no '"' |
| LinkScanner.ReadPtokenIsPtoken | modules/http2/h2_push.c:183-198 | a ptoken read is a non-empty, maximal run of ptoken characters |
| LinkScanner.ReadLinkSpec | modules/http2/h2_push.c:200-211 | read_link succeeds exactly when a '<' comes next and a '>' follows somewhere; the link is the text between '<' and the first later '>', and the cursor ends just past that '>' |
| LinkScanner.ReadPnameIsParmname | modules/http2/h2_push.c:213-227 | a parameter name read is a non-empty, maximal run of attr-chars |
| LinkScanner.ReadPvalueShape | modules/http2/h2_push.c:229-237 | a parameter value read is either the unescaped content of a quoted string or a ptoken |
| LinkScanner.ReadParam | modules/http2/h2_push.c:239-250 | read_param never moves the cursor back or past the end; when it reads a parameter it moves past at least ";" and a name, which is non-empty, and when it fails it stores nothing |
| LinkScanner.ReadParamName | modules/http2/h2_push.c:239-250 | every parameter read_param stores has a parmname (attr-chars only) as its name |
| LinkScanner.ReadSep | modules/http2/h2_push.c:252-258 | read_sep succeeds exactly when a ',' is the next non-blank character, and then moves the cursor forward |
| LinkScanner.ReadParamsNames | modules/http2/h2_push.c:417-419 | every parameter the read_param loop collects has a parmname as its name |
| LinkScanner.ReadLinkValue | modules/http2/h2_push.c:415-424 | one turn of the inspect_link loop never moves the cursor back or past the end; it moves it forward whenever the loop goes on, and it stops the loop when no link was read |
| LinkScanner.Links | modules/http2/h2_push.c:415-424 | the loop reads no more link-values than there are characters left, so inspect_link terminates |
| LinkScanner.LinksHaveNoGt | modules/http2/h2_push.c:200-211 | no link read contains '>' |
| LinkScanner.InspectLink | modules/http2/h2_push.c:371-425 | inspect_link finds at most one link-value per character, and none in an empty header value |
| LinkFormat.SetAllFromEmpty | modules/http2/h2_push.c:239-250 | successive setn calls store parameters whose names differ ignoring case exactly as read, in order |
| LinkFormat.InspectLinkOfFormat | modules/http2/h2_push.c:371-425 | scanning the text written for well-formed link-values (`<link>; name="value", …`) gives back exactly those link-values, parameters included and in order |
| Push.PolicyNameInjective | modules/http2/h2_push.c:46-58 | the push-policy header value names the policy unambiguously |
| Push.FindSub | modules/http2/h2_push.c:307 | strstr returns the first position where the text occurs, and fails only when it occurs nowhere |
| Push.HasRelation | modules/http2/h2_push.c:300-316 | a relation is accepted only when the "rel" parameter has a whole space-separated word rel with no occurrence of rel before it (strstr's first match) |
| Push.HasRelationIff | modules/http2/h2_push.c:300-316 | a relation is accepted exactly when the "rel" parameter is present and its first occurrence of rel is a whole space-separated word |
| Push.HasRelationFirstWord | modules/http2/h2_push.c:300-316 | a relation whose first occurrence in "rel" is a whole word is accepted |
| Push.HasRelationOnlyWord | modules/http2/h2_push.c:300-316 | a relation that occurs in "rel" only once, as a whole word, is accepted |
| Push.HasRelationAbsent | modules/http2/h2_push.c:300-316 | without a "rel" parameter, or when the relation occurs nowhere in it, the relation is refused |
| Push.PreloadAmongOthers | modules/http2/h2_push.c:300-316 | "x preload" names the preload relation |
| Push.PreloadedIsNotPreload | modules/http2/h2_push.c:300-316 | "preloaded" does not name the preload relation |
| Push.OnlyFirstOccurrenceCounts | modules/http2/h2_push.c:307-313 | only the first occurrence is examined: "preloadx preload" is refused although its second word is "preload" |
| Push.PushHeaderAllowedEquiv | modules/http2/h2_push.c:281-292 | whether set_push_header copies a request header does not depend on the spelling of its name |
| Push.PushHeaders | modules/http2/h2_push.c:281-292 | a push carries only the five allowed request headers |
| Push.CopyAllowedKeys | modules/http2/h2_push.c:281-292 | copying request headers with set_push_header adds no header outside the allow-list |
| Push.CopyAllowedGet | modules/http2/h2_push.c:281-292 | after the copy an allowed header reads as the last value the request had for it; other headers are untouched |
| Push.PushHeadersGet | modules/http2/h2_push.c:281-350 | a push carries, for each of the five allowed headers, the request's last value of that name, and nothing else |
| Push.AddPush | modules/http2/h2_push.c:318-369 | add_push makes a push exactly for a preload link without nopush whose URI parses, has a path and is of the same authority. The method is HEAD under the head policy and GET otherwise. Scheme and authority are the request's, and the path is the unparsed URI. The priority is "before" exactly when the link is critical. The headers are the request's headers that PushHeaders copies, and all of them are allowed ones |
| Push.PushesOfAppend | modules/http2/h2_push.c:415-424 | collecting from two runs of link-values is collecting from each in turn |
| Push.PushesOfMembers | modules/http2/h2_push.c:415-424 | the pushes are exactly the add_push results of the link-values: each comes from one, and each accepted one is there |
| Push.TrailingSpaceLinkHeader | modules/http2/h2_push.c:429 | a Link name followed by white space, such as the key "Link " that the header line "Link : ..." yields, is a Link header, because natural comparison skips white space |
| Push.LinkHeaderIgnoresSpace | modules/http2/h2_push.c:429 | inserting white space anywhere in a header name never changes whether head_iter treats it as a Link header |
| Push.HeadIterOrder | modules/http2/h2_push.c:427-464 | pushes come out in scan order: header by header, and link-value by link-value within a header. The Link headers are those whose name, with white space removed, is "link" in any case |
| Push.Collect | modules/http2/h2_push.c:441-473 | without a request, under the "none" policy, or without response headers, there are no pushes and the headers stay as they were. A result is never an empty list. push-policy is set to the policy's name only when there are pushes, and every other header keeps its value |
| Push.CollectPushes | modules/http2/h2_push.c:441-473 | the collected pushes are the add_push results of the link-values of the Link headers (names matched as head_iter matches them) in scan order; there are none exactly when no link-value is accepted |
| PushDiary.CeilPowerOf2 | modules/http2/h2_push.c:536-546 | for n up to 2^30 the result is a power of two and at least n. It is 2 for n ≤ 2, and for n > 2 it is less than twice n, so it is the least such power |
| PushDiary.CeilBand | modules/http2/h2_push.c:536-546 | for 2^k < n ≤ 2^(k+1) the ceiling is 2^(k+1) |
| PushDiary.SmearBits | modules/http2/h2_push.c:539-545 | the bit smearing on the 32-bit value n - 1, plus one, gives a power of two above n - 1 whose half is at most n - 1 |
| PushDiary.SmearIsCeil | modules/http2/h2_push.c:536-546 | for 2 < n ≤ 2^30, smearing the 32-bit value m = n - 1 and adding one gives exactly CeilPowerOf2(n) |
| PushDiary.CeilPowerOf2OfPow2 | modules/http2/h2_push.c:536-546 | a power of two of at least 2 is its own ceiling |
| PushDiary.Log2OfPow2 | modules/http2/h2_push.c:817 | h2_log2 is exact on powers of two |
| PushDiary.DiaryCreate | modules/http2/h2_push.c:548-582 | a diary is made exactly when N > 0. It starts empty, with N = NMax a power of two of at least the size asked for, 64 mask bits and no authority. The size is the least such power: 2 when N ≤ 2, and less than 2N otherwise |
| PushDiary.DiaryCreateSize | modules/http2/h2_push.c:548-557 | asking for a power of two of at least 2 gives exactly that size |
| PushDiary.Find | modules/http2/h2_push.c:589-604 | find returns -1 when there is no diary or the hash is absent; otherwise it returns the highest index holding the hash |
| PushDiary.MoveToLast | modules/http2/h2_push.c:606-623 | move_to_last puts the entry last, keeps the entries before it, and moves those after it up by one; it changes nothing for the last index or beyond |
| PushDiary.MoveToLastPermutes | modules/http2/h2_push.c:606-623 | move_to_last only reorders the entries |
| PushDiary.Evict | modules/http2/h2_push.c:625-642 | the eviction loop of append keeps exactly the newest N - 1 entries, or all of them when there are fewer |
| PushDiary.AppendEntry | modules/http2/h2_push.c:638-648 | append leaves at most N entries: the newest of the old ones, in order, then the new hash |
| PushDiary.Step | modules/http2/h2_push.c:662-680 | a push counts as new exactly when its hash was absent; afterwards its hash is the newest entry, and the diary stays within N entries |
| PushDiary.RunBounded | modules/http2/h2_push.c:656-684 | the diary never holds more than N entries |
| PushDiary.RunFresh | modules/http2/h2_push.c:659-681 | a push is kept exactly when its hash is absent from the diary as the pushes before it in the batch have left it |
| PushDiary.RunKeepsBatch | modules/http2/h2_push.c:659-681 | in a batch of at most N pushes, every hash the batch has seen stays among the newest entries |
| PushDiary.RepeatSuppressed | modules/http2/h2_push.c:659-681 | a hash repeated within a batch of at most N pushes is pushed at most once |
| PushDiary.Select | modules/http2/h2_push.c:675-678 | the kept pushes are some of the input pushes, and there are none exactly when no push is new |
| PushDiary.FoldIsMod | modules/http2/h2_push.c:506-508 | the 64-bit fold `val * 256 + byte` computes the big-endian value of the bytes modulo 2^64 |
| PushDiary.FoldKeepsLast8 | modules/http2/h2_push.c:506-508 | only the last 8 digest bytes survive the fold, read as a big-endian number |
| PushDiary.CalcHashSha | modules/http2/h2_push.c:488-510 | with all 64 mask bits, the SHA-256 hash of a push is the big-endian value of the last 8 digest bytes of scheme "://" authority path |
| PushDiary.AprHashParts | modules/http2/h2_push.c:520-534 | in the APR hash the top 16 bits come from the scheme's hash alone and the low 16 bits from the path's hash alone |
| PushDiary.HashesOf | modules/http2/h2_push.c:663 | each push is hashed with the diary's hash function |
| PushDiary.Update | modules/http2/h2_push.c:650-684 | without a diary or pushes, update returns the pushes as given. Otherwise it keeps exactly the pushes whose hash was absent when processed, in input order, or returns NULL when none is new. The diary keeps its invariant |
| PushDiary.UpdateLoop | modules/http2/h2_push.c:659-681 | the loop leaves the diary's entries and the kept pushes exactly as the run of turns defines them, within N entries |
| PushDiary.Turn | modules/http2/h2_push.c:662-680 | a known hash moves to the end of the diary; an unknown one is appended and its push kept |
| Golomb.ValueOfBits | modules/http2/h2_push.c:786-791 | the remainder bits are the low bits of the gap, most significant first |
| Golomb.BitsOfValue | modules/http2/h2_push.c:786-791 | a bit string is the low bits of its own value, so the remainder bits determine the remainder |
| Golomb.CodeIsGolombRice | modules/http2/h2_push.c:766-791 | the code word of a gap is the quotient by 2^log2p in unary 1 bits, a 0 bit, and the remainder in log2p bits |
| Golomb.DecodeEncodeSet | modules/http2/h2_push.c:760-793 | the code of an ascending sequence of values, followed by any number of padding 1 bits, decodes back to that sequence |
| DigestBytes.BitsOfByte | modules/http2/h2_push.c:723-736 | a byte's bits, most significant first, are the bits it was made of |
| DigestBytes.PackLength | modules/http2/h2_push.c:872 | n bits occupy a byte for every 8 bits begun |
| DigestBytes.UnpackPack | modules/http2/h2_push.c:738-758 | unpacking the packed bits gives them back followed by 1 bits up to the byte boundary |
| DigestBytes.EncodeBit | modules/http2/h2_push.c:738-758 | each bit keeps the encoder well formed, with the bit position below 8 |
| DigestBytes.EncodeBitsAppend | modules/http2/h2_push.c:738-758 | encoding bits a and then bits b is encoding a + b |
| DigestBytes.EncodeBitsState | modules/http2/h2_push.c:738-758 | after any bits the encoder holds the header bytes followed by those bits packed into bytes padded with 1 bits |
| CacheDigest.Sort | modules/http2/h2_push.c:717-721 | the qsort with cmp_puint64 gives an ascending permutation of the hashes |
| CacheDigest.SortedPermutationsEqual | modules/http2/h2_push.c:717-721 | a sorted permutation is unique, so any correct qsort gives the same order |
| CacheDigest.UniqValues | modules/http2/h2_push.c:861-865 | skipping repeats keeps exactly the values of the input and ends with its last one |
| CacheDigest.UniqIncreasing | modules/http2/h2_push.c:861-865 | on sorted input the values encoded strictly increase |
| CacheDigest.StoreLoop | modules/http2/h2_push.c:853-858 | the store loop over a block of a given size fails exactly when the last hash does not fit. It then reports the first store outside the block, and every earlier store fits. Otherwise it stores every entry with its low delta_bits bits cut off, in order |
| CacheDigest.AsWrittenOverflows | modules/http2/h2_push.c:853-858 | with the allocation as written, one byte per hash, every non-empty diary overruns the block, first at the store of hashes[count / 8] |
| CacheDigest.CorrectedStoreSucceeds | modules/http2/h2_push.c:853-858 | with 8 bytes per hash the loop stores every entry, and what it stores is StoreHashes |
| CacheDigest.StoreHashes | modules/http2/h2_push.c:855-858 | entry i of the hash array is diary entry i with its low delta_bits bits cut off |
| CacheDigest.DigestValuesSpec | modules/http2/h2_push.c:853-865 | the values encoded strictly increase, and a value is among them exactly when it is some diary entry shifted right by delta_bits |
| CacheDigest.EncodeAllIsEncodeSet | modules/http2/h2_push.c:760-793 | calling gset_encode_next for each value in turn writes the Golomb-Rice bit string of the whole set |
| CacheDigest.ParamsOf | modules/http2/h2_push.c:815-832 | log2n is the exponent of the power of two above the entry count. log2p is the exponent of the ceiling of maxP unless fewer of the mask bits remain. log2n, log2p and delta_bits add up to mask_bits |
| CacheDigest.DigestGet | modules/http2/h2_push.c:805-875 | byte 0 is log2n and byte 1 is log2p. They never use more than mask_bits bits together, and log2p never exceeds the ceiling of maxP. On an authority mismatch the digest is exactly the 2 header bytes |
| CacheDigest.DecodeDigest | modules/http2/h2_push.c:805-875 | a digest can be read exactly when it has its two header bytes |
| CacheDigest.DigestBytesLayout | modules/http2/h2_push.c:837-872 | the digest is the two header bytes, then the Golomb-Rice bits of the sorted, de-duplicated, shifted hashes (none on an authority mismatch), packed and padded with 1 bits |
| CacheDigest.DigestRoundTrip | modules/http2/h2_push.c:805-875 | decoding the digest gives back log2n, log2p and exactly the encoded values |
| CacheDigest.DigestDescribesDiary | modules/http2/h2_push.c:805-875 | when the authority matches, the decoded values strictly increase and are exactly the diary hashes cut to their top log2n + log2p of the mask bits; otherwise there are none |
| Vary.TokenLen | modules/http2/h2_c2_filter.c:174-177 | a token stops at the first separator (',' or white space) or at the end, and holds no separator |
| Vary.Tokens | modules/http2/h2_c2_filter.c:165-194 | every token the splitting yields is non-empty and holds no ',' or white space |
| Vary.TokensOfJoin | modules/http2/h2_c2_filter.c:165-194 | splitting tokens joined by ',' gives exactly those tokens back |
| Vary.AddUniqSpec | modules/http2/h2_c2_filter.c:185-193 | the inner loop keeps the stored tokens distinct ignoring case and in order. Afterwards the token is represented, and nothing but the token is added |
| Vary.AddAllSpec | modules/http2/h2_c2_filter.c:165-194 | adding tokens keeps the stored tokens distinct and in order, represents every token added, and adds nothing else |
| Vary.UniqFieldValuesSpec | modules/http2/h2_c2_filter.c:152-197 | after one Vary value the stored tokens are distinct ignoring case, non-empty and free of separators. They extend what was stored before, represent every token of the value, and come from nowhere else. What is added is exactly the first occurrences of the value's tokens, in order and in the spelling first seen |
| Vary.FirstOccurrencesMembers | modules/http2/h2_c2_filter.c:185-193 | a token is kept exactly when no stored value and no earlier token equals it ignoring case, and nothing else is kept |
| Vary.AddAllFirstOccurrences | modules/http2/h2_c2_filter.c:165-194 | adding tokens one by one appends exactly their first occurrences, in order of occurrence and in the spelling first seen |
| Vary.RepresentedAddAll | modules/http2/h2_c2_filter.c:185-193 | after adding tokens, a name is represented exactly when the old values or the tokens represent it |
| Vary.KeepsFirstSpelling | modules/http2/h2_c2_filter.c:185-193 | of two spellings of one token only the first is stored: "b, a, A" stores b and a |
| Vary.AddAllDistinct | modules/http2/h2_c2_filter.c:185-193 | tokens that are already distinct ignoring case are all kept, in first-occurrence order |
| Vary.CollectVarySpec | modules/http2/h2_c2_filter.c:214 | over all Vary fields the stored tokens stay distinct and well formed; none are found exactly when no field has a token. They are the old values followed by the first occurrences of all the fields' tokens, field by field |
| Vary.CollectVaryIsAddAll | modules/http2/h2_c2_filter.c:214 | applying uniq_field_values field by field is adding the tokens of all fields in order |
| Vary.CollectVaryRepresents | modules/http2/h2_c2_filter.c:214 | every token of every Vary field is represented in the result |
| Vary.VaryValuesOfSet | modules/http2/h2_c2_filter.c:219-220 | after setn of Vary, the only Vary value left is the one set |
| Vary.NoVaryNoTokens | modules/http2/h2_c2_filter.c:214-218 | a table without a Vary field yields no tokens |
| Vary.FixVarySpec | modules/http2/h2_c2_filter.c:204-221 | fix_vary leaves the table alone when there are no tokens. Otherwise Vary reads as the distinct tokens joined by ',', which split back into exactly those tokens. The tokens are the first occurrences of the tokens of all Vary fields, in order and in their first spelling: each is such a token, and every such token is represented. No other header changes |
| Vary.VaryTokensFirst | modules/http2/h2_c2_filter.c:204-218 | the tokens fix_vary collects are the first occurrences of the tokens of all Vary fields, in order and in their first spelling: each is such a token, and every such token is represented |
| Vary.FixVaryIdempotent | modules/http2/h2_c2_filter.c:204-221 | applying fix_vary twice is applying it once |
| ResponseParser.CheckMaskStar | modules/http2/h2_c2_filter.c:541-542 | a mask ending in '*' accepts exactly the lines that start with a match of the rest of the mask |
| ResponseParser.StatusIndex | modules/http2/h2_c2_filter.c:541-542 | the status code starts at column 9 for `HTTP/#.# ###`, at column 7 for `HTTP/# ###`, and there is none otherwise |
| ResponseParser.MaskDigits | modules/http2/h2_c2_filter.c:541-547 | a line that matches a mask has digits where the status code is read |
| ResponseParser.ParseStatus | modules/http2/h2_c2_filter.c:539-564 | parse_status succeeds exactly on lines of the two forms. It then reads the three-digit code from column 9 or 7 and moves on to the header lines. Any other line gives EINVAL and leaves the parser as it was |
| ResponseParser.StatusLineRoundTrip | modules/http2/h2_c2_filter.c:539-564 | parse_status reads back the code of any well-formed status line |
| ResponseParser.StripWsp | modules/http2/h2_c2_filter.c:379-381 | the text kept is a suffix of the line that does not start with SP or HT, and everything cut off is SP or HT |
| ResponseParser.ParseHeader | modules/http2/h2_c2_filter.c:374-396 | a continuation line replaces the last stored line by that line, a space and the continuation without its leading blanks, so the count stays the same. A continuation with no stored line fails. Any other line is appended |
| ResponseParser.ParseHeadersSpec | modules/http2/h2_c2_filter.c:374-396 | over many lines, parsing fails only when the first line continues nothing. Otherwise the count grows by the number of lines that start a header, and earlier lines stay as they were |
| ResponseParser.ParseFolded | modules/http2/h2_c2_filter.c:374-396 | a header line and its continuations become one line, joined by single spaces |
| ResponseParser.IndexOfFound | modules/http2/h2_c2_filter.c:485 | the search for ':' succeeds exactly when the line has one |
| ResponseParser.MakeTableInvalid | modules/http2/h2_c2_filter.c:476-507 | make_table fails, with no partial table, exactly when some line has no ':' |
| ResponseParser.SplitFieldLine | modules/http2/h2_c2_filter.c:485-496 | a line `name: value` splits into the name before the first ':' and the value without its leading blanks |
| ResponseParser.MakeTableOfFields | modules/http2/h2_c2_filter.c:476-507 | make_table reads well-formed field lines back as their fields, merged in order, skipping ignored names |
| ResponseParser.ParseResponse | modules/http2/h2_c2_filter.c:509-607 | every call consumes input. A response passed on comes with success and leaves the parser reset to STATUS_LINE with no stored lines. When parsing stops early with success, a response was passed |
| ResponseParser.EndOfHeaders | modules/http2/h2_c2_filter.c:509-594 | an empty line in HEADER_LINE passes the status and the table built from the stored lines, and resets the parser |
| ResponseParser.HeaderLineStep | modules/http2/h2_c2_filter.c:595-599 | in HEADER_LINE a line that is not a continuation is stored and parsing goes on |
| ResponseParser.StatusLineStep | modules/http2/h2_c2_filter.c:585-588 | in STATUS_LINE a valid status line moves the parser on to the header lines |
| ResponseParser.HeaderLinesParse | modules/http2/h2_c2_filter.c:589-599 | field lines followed by the empty line are stored and then passed on as one table |
| ResponseParser.ParseResponseRoundTrip | modules/http2/h2_c2_filter.c:566-607 | parse_response reads a serialized response back as its status and fields, and stops right after its empty line |
| ResponseParser.CatchH1OutFinal | modules/http2/h2_c2_filter.c:530-653 | only a status of 200 or more is final. Every response passed before the last is interim, and nothing else is passed on before a final response |
| ResponseParser.CatchH1OutRoundTrip | modules/http2/h2_c2_filter.c:530-653 | interim responses followed by a final one are all read back in order, and the body after them is passed on untouched |
| Chunking.Hex | modules/http2/h2_c2_filter.c:781-782 | the chunk size is written as non-empty hex digits |
| Chunking.ParseHexOfHex | modules/http2/h2_c2_filter.c:781-782 | reading the written size back gives the chunk length |
| Chunking.TrailerTextUniform | modules/http2/h2_c2_filter.c:846-853 | both trailer branches write the last chunk "0" CRLF, then a `name: value` CRLF line per field, then CRLF; without fields this is `0\r\n\r\n` |
| Chunking.FlattenChunk | modules/http2/h2_c2_filter.c:770-796 | make_chunk surrounds the run's bytes with the hex size line and CRLF |
| Chunking.ReadAndChunkNoEmptyData | modules/http2/h2_c2_filter.c:874-877 | read_and_chunk drops empty data buckets, so no chunk has size 0 |
| Chunking.ChunkedTotal | modules/http2/h2_c2_filter.c:792-889 | chunked_total grows by exactly the data bytes read |
| Chunking.DechunkChunk | modules/http2/h2_c2_filter.c:770-796 | a chunk with its size line decodes to its data, then to whatever follows |
| Chunking.TrailerTextDecodes | modules/http2/h2_c2_filter.c:798-853 | the last chunk with the trailers decodes to no data and exactly the trailer field lines |
| Chunking.DechunkEos | modules/http2/h2_c2_filter.c:838-872 | a lone end-of-stream is framed as the last chunk with no trailers. Trailers followed by end-of-stream are framed as one last chunk carrying them, with no second terminator |
| Chunking.PiecesContent | modules/http2/h2_c2_filter.c:828-889 | the chunk payloads carry exactly the data bytes, in order, and none is empty |
| Chunking.FrameBody | modules/http2/h2_c2_filter.c:828-889 | a body of data, flush and empty buckets is framed as the chunks of its data runs, followed by whatever the rest gives |
| Chunking.ChunkRoundTrip | modules/http2/h2_c2_filter.c:805-892 | decoding the chunked output of a body and its end (with or without trailers) gives back the body's bytes and the trailer lines |
| Chunking.EosResets | modules/http2/h2_c2_filter.c:859-871 | after an end-of-stream the filter expects to write a last chunk again |

## Left out

- Memory pools, allocation failure and `APR_ENOMEM` are not modelled. `gset_encode_bit` doubles its buffer when full, and the model's byte sequence simply grows. `h2_push_diary_digest_get` ignores the encoder's status anyway.
- Logging (`ap_log_*`) is not modelled. It has no effect on results.
- The `H2_OPENSSL` switch is taken as on, so `h2_push_diary_create` makes SHA-256 diaries. The APR-hash diary type is still modelled through `diary_create`'s `dtype`.
- SHA-256 and `apr_hashfunc_default` are function parameters. Only the way their results are folded and combined is modelled.
- `apr_uri_parse` and `apr_uri_unparse` are function parameters. The parse result keeps only the scheme, hostinfo and path.
- `h2_util_ignore_header` is the parameter `ignore`, because it lives outside these two files.
- `H2_HD_MATCH_LIT` is modelled as ASCII case-insensitive equality with equal lengths.
- `apr_strnatcasecmp("link", key)` in `head_iter` is modelled as case-insensitive equality of "link" with the key after its white space is removed. Natural comparison skips white space in both strings. Its rule for runs of digits never decides here, because "link" has no digits.
- `apr_strnatcasecmp` in `uniq_field_values` is modelled as ASCII case-insensitive equality, and on the white-space-free tokens it compares this is exact: it reports equality only for identical runs of digits, and it compares every other character after case folding.
- `apr_date_checkmask` is modelled for the mask characters the two masks use: '#', '*' and literal characters.
- `h2_log2` is modelled as the floor of the base-2 logarithm, which is exact on the powers of two it is applied to.
- `h2_request_create` and `h2_request_end_headers` are not modelled. A push records the method, scheme, authority, path and headers they are given.
- PushDiary.CeilPowerOf2: requires n ≤ 2^30, because above that the 32-bit bit smearing overflows.
- PushDiary.DiaryCreate: requires N ≤ 2^30, for the same reason.
- CacheDigest.DigestGet: requires the diary's entry count and maxP to be at most 2^30, and log2n to fit within mask_bits. These keep the C function's `int` and `unsigned char` arithmetic exact.
- `qsort` is modelled as an insertion sort. `CacheDigest.SortedPermutationsEqual` shows that any correct sort gives the same result.
- `gset_encode_next` computes the gap as a 64-bit unsigned difference, and the model does the same. Only ascending values, which is all the digest passes, are shown to decode back.
- Bucket brigades and filter plumbing are not modelled:
  - `get_line` becomes a list of lines already split and without their line ends;
  - a brigade becomes a list of buckets;
  - `ap_get_brigade` errors, read modes and `ap_pass_brigade` results are not modelled.
- `H2_RP_DONE` is not modelled. No code in `h2_c2_filter.c` enters that state.
- `h2_c2_filter_catch_h1_out` is modelled only as its loop over `parse_response` until a final response. The EOR-bucket error path and the creation of the parser record are not modelled.
- `create_response`, `h2_c2_filter_notes_out`, `h2_c2_filter_request_in`, `h2_c2_filter_response_out` and `h2_c2_filter_trailers_out` are not part of this model. They are request and response plumbing over APR objects and external calls.
- `h2_push_collect_update` is only the composition of `Push.Collect` and `PushDiary.Update`, so it has no member of its own.
- `r->trailers_in` is kept in the chunk filter's state and never read again here.
- The `HUGE_STRING_LEN` line buffer of `parse_response` is not modelled. Lines are unbounded.
- Chunking.ChunkRoundTrip: requires trailer fields with no CR in name or value, so that each field line can be read back. The framing itself is modelled for any fields.

## Findings

| source | as written | input that shows it | evidently intended | confidence | as-written member | corrected member |
|---|---|---|---|---|---|---|
| modules/http2/h2_push.c:854 | `apr_pcalloc(encoder.pool, hash_count)` allocates `hash_count` bytes for `hash_count` values of type `apr_uint64_t` | a diary with one entry: the 1-byte block receives an 8-byte store at line 856 | `hash_count * sizeof(apr_uint64_t)` bytes | high, not executed | CacheDigest.AsWrittenOverflows | CacheDigest.CorrectedStoreSucceeds |

`CacheDigest.StoreLoop` models the loop over a block of any size. `CacheDigest.StoreHashesAsWritten` runs it over the block as allocated. `CacheDigest.StoreHashes` requires a block that holds every hash, and `CacheDigest.DigestGet` calls it with the corrected size `CacheDigest.HashArrayBytes`.
