# parallel-wget core, modelled in Dafny

This project models three parts of parallel-wget, a fork of GNU Wget that adds
Metalink support:

- **Host resolution (`src/host.c`).** The reference-counted address list
  (`struct address_list`) and its faulty/connected bookkeeping. The two
  constructors: one from a `getaddrinfo` answer and one from a vector of
  IPv4 addresses. The host-name cache (`host_name_addresses_map`), with
  caching, forgetting, `lookup_host` and `host_cleanup`. The suffix matcher
  `sufmatch`.
- **Metalink handling (`src/metalink.c`).** The conversion of a parsed
  Metalink document into wget's own descriptor (`parse_metalink`). The two
  in-place elections over linked lists (`elect_resources`,
  `elect_checksums`). Hex lower-casing (`lower_hex_case`). The checksum
  check (`verify_file_hash`).
- **Utility helpers (`src/utils.c`).**
  - Strings: lower-case copy, delimited copy, comma-separated parsing,
    concatenation, vector merging, HTML quoting.
  - Paths and names: front and tail comparison, accept lists, file
    suffixes, HTML suffix detection, path merging, unique file names.
  - Numbers: digit counting, decimal printing into a buffer, the ring of
    static buffers, thousands separators.
  - Lists: the singly linked string list (`slist`).

Modules follow the source files:

| Module | File | Source |
|---|---|---|
| `Common` | `common.dfy` | ASCII case folding, `Option`, and sequence helpers (`Reverse`, `Collect`, `Filter`) shared by the others |
| `Host` | `host.dfy` | `src/host.c` |
| `Metalink` | `metalink.dfy` | `parse_metalink` and the elections |
| `MetalinkHash` | `hash.dfy` | `lower_hex_case` and `verify_file_hash` |
| `Strings` | `strings.dfy` | string and vector helpers of `src/utils.c` |
| `Paths` | `paths.dfy` | path and name helpers of `src/utils.c` |
| `Numbers` | `numbers.dfy` | number helpers of `src/utils.c` |
| `StringList` | `slist.dfy` | `slist_*` of `src/utils.c` |

How the source's objects are represented:

- **Address lists and the cache.** An address list is a class. Its
  `faulty`, `connected` and `refcount` fields change in place. Ghost fields
  record who holds the list: callers of `lookup_host`, and the cache. The
  invariant `refcount == holders + (1 if cached)` is kept by every
  operation. The cache is a class holding an optional map: `None` stands
  for the NULL table.
- **Resolver answers.** `inet_addr`, `gethostbyname` and `getaddrinfo` are
  given as an input value (`Resolver`). That value also selects the IPv4
  or IPv6 build of `lookup_host`.
- **Metalink lists.** The source's linked lists are sequences in list
  order. Where the source frees a node and then reads it again, the
  outcome is recorded explicitly as undefined behaviour (`Walk.ReadFreed`,
  `Verdict.Undefined`).
- **Buffers.** C buffers that are written through an advancing pointer are
  arrays. Their contents are tied to a specification function: `Decimal`,
  `Quote`, `Concat`, `Hex` or `Lower`.

## Model

| member | source | states |
|---|---|---|
| Host.FaultyAfterIsRemainder | src/host.c:162-177 | after n faulty marks starting from a clean list, the first usable index is n mod count, so it always stays inside the list |
| Host.AddressList.constructor | src/host.c:216-219 | a new list holds the given addresses, none faulty, not connected, with one reference held by its creator |
| Host.AddressList.GetBounds | src/host.c:103-108 | the usable range starts at the first non-faulty address and ends at the list length, and is never empty |
| Host.AddressList.AddressAt | src/host.c:112-117 | the address at a position inside the usable range is the stored address at that position |
| Host.AddressList.Find | src/host.c:121-157 | answers true exactly when some address of the list equals the given one (the scan's verdict matches membership) |
| Host.AddressList.SetFaulty | src/host.c:162-177 | requires the index to be the current faulty mark; advances the mark by one, wrapping to 0 once every address was faulty; nothing else changes |
| Host.AddressList.SetConnected | src/host.c:182-186 | sets the connected flag and changes nothing else |
| Host.AddressList.ConnectedP | src/host.c:190-194 | reports the connected flag |
| Host.AddressList.Retain | src/host.c:516 | taking another reference raises the count by one and keeps the reference invariant |
| Host.AddressList.Release | src/host.c:289-299 | drops one reference; the list is deleted exactly when the count reaches zero, which is exactly when no holder and no cache entry remain |
| Host.Ipv4List | src/host.c:266-271 | one IPv4 address per vector entry, in order |
| Host.FromIpv4Addresses | src/host.c:251-274 | a fresh list of the vector's addresses, in order, with one reference |
| Host.FromAddrinfo | src/host.c:201-244 | no list when the answer has no IPv4/IPv6 entry; otherwise a fresh list of exactly those entries, in answer order, with one reference |
| Host.Resolve | src/host.c:524-570 | the resolver step of lookup_host: no list exactly when the resolver yields no address, otherwise a fresh list of its addresses |
| Host.Put | src/host.c:439-446 | after storing, the lower-cased host maps to the list, every other key keeps its list, and no other key appears |
| Host.HostCache.constructor | src/host.c:83 | the cache starts as the NULL table |
| Host.HostCache.Lookup | src/host.c:507-513 | a host is found exactly when the table exists and holds its lower-cased name, and the list found is one the cache holds |
| Host.HostCache.CacheHostLookup | src/host.c:439-446 | creates the table on demand, stores the list under the lower-cased host, and adds the cache's reference to the list |
| Host.HostCache.ForgetHostLookup | src/host.c:463-472 | a cached host is removed and its list loses the cache's reference (deleted exactly when no holder is left) while its faulty mark and connected flag stay as they were; an unknown host leaves the table unchanged |
| Host.HostCache.LookupHost | src/host.c:484-595 | a numeric IPv4 host gives a fresh one-address list that is not cached; a cached host returns the cached list with one more reference; otherwise no list when resolution yields nothing, or a fresh list of the resolved addresses, cached (two references) exactly when DNS caching is on; a cached list keeps its faulty mark and connected flag, and on the numeric path its counts too |
| Host.HostCache.HostCleanup | src/host.c:692-701 | with every cached list held only by the cache, every list is deleted and the table becomes NULL again |
| Host.DeleteAll | src/host.c:678-689 | applying the cleanup mapper to every cached list deletes each one |
| Host.Sufmatch | src/host.c:660-676 | true exactly when some pattern is a case-insensitive suffix of the host name |
| Host.SufmatchIgnoresLabels | src/host.c:660-676 | the match is on characters, not on domain labels: "ample.com" matches "example.com", and case is ignored |
| Metalink.ParseFile | src/metalink.c:103-165 | a file with a name and a resource list becomes a descriptor entry: the resources with a URL and the checksums with a type and a hash, each in reverse order; the resource count is exact and the checksum count stays 0 |
| Metalink.ParseMetalink | src/metalink.c:55-197 | no descriptor when parsing failed or the document has no file list; otherwise the descriptor of the kept files |
| Metalink.DescriptorShape | src/metalink.c:84-106 | the descriptor lists exactly the files with a name and resources, in reverse order, with the file count matching; each kept file's resource count matches its list, while its checksum count stays 0 and no chunk checksum is attached |
| Metalink.KeptFileShape | src/metalink.c:88-117 | every kept file comes from an input file with a name and resources, and its resource count is its list length |
| Metalink.FileWithoutUrls | src/metalink.c:119-141 | a file whose resources all lack a URL is still kept, with an empty resource list and a count of 0 |
| Metalink.UntypedResourceKept | src/metalink.c:119-140 | a resource with a URL but no type is kept with a null type, so the elections can meet one |
| Metalink.FileWithoutChecksums | src/metalink.c:143-164 | a file whose checksum records all lack a type or a hash is still kept, with an empty checksum list |
| Metalink.UnlinkPassAsWritten | src/metalink.c:207-221 | the interior walk as written: an empty list is dereferenced at once; with every non-head node readable and kept the list is unchanged; otherwise, at the first non-head node that is not, a null field is read, or the node is freed and then read again |
| Metalink.UnlinkPass | src/metalink.c:207-221 | the walk with the cursor advanced: the head followed by exactly the kept non-head nodes, in order |
| Metalink.UnlinkStep | src/metalink.c:209-220 | one iteration of the walk keeps the invariant "head, kept prefix, unvisited rest" |
| Metalink.NoResourceSurvives | src/metalink.c:211 | the unlink test as written is true for every resource type |
| Metalink.ElectFileResources | src/metalink.c:205-227 | as written: an empty list is dereferenced; a null type at the first resource tested (the second, else the head) reaches strcmp; otherwise a lone resource is unlinked, leaving an empty list, and with two or more the second is freed and then read |
| Metalink.ElectFileResourcesFixed | src/metalink.c:205-227 | the intended election: the FTP and HTTP resources, in order, or the first resource alone when none qualifies, so a file that had a location keeps one; nothing is added |
| Metalink.ElectResources | src/metalink.c:199-229 | over all files: undefined exactly when some file does not have exactly one resource with a type; otherwise every file is left with no resource |
| Metalink.SupportedFrom | src/metalink.c:244 | the table scan stops at the first supported name equal to the type, or at the table's end |
| Metalink.SupportedIndex | src/metalink.c:244 | the scan stops inside the table exactly when the type is supported, and then at that type's entry |
| Metalink.ElectFileChecksums | src/metalink.c:238-263 | as written: an empty list is dereferenced; undefined exactly when a non-head record has a supported type; otherwise nothing is unlinked, and a supported head is freed while the file still points to it |
| Metalink.ElectFileChecksumsFixed | src/metalink.c:238-263 | the intended election: exactly the records of supported types remain, in order, and an empty list stays empty |
| Metalink.ElectChecksums | src/metalink.c:231-264 | over all files: undefined exactly when some file has no record or has a supported type past its head; otherwise the files left with a freed head are exactly those whose head type is supported |
| MetalinkHash.HexDigit | src/metalink.c:443-445 | a nibble renders as a lower-case hex digit |
| MetalinkHash.HexValue | src/metalink.c:443-445 | a hex digit reads back as a nibble |
| MetalinkHash.Hex | src/metalink.c:443-445 | the "%02x" rendering has two hex digits per byte |
| MetalinkHash.Unhex | src/metalink.c:443-445 | reading hex gives one byte per two digits |
| MetalinkHash.HexRoundTrip | src/metalink.c:443-445 | reading back the rendering gives the original digest, so the rendering loses nothing |
| MetalinkHash.HexPair | src/metalink.c:445 | byte j renders at positions 2j and 2j+1 as its high and low nibble |
| MetalinkHash.NibbleRoundTrip | src/metalink.c:445 | a byte's two rendered digits read back as the byte |
| MetalinkHash.HexIsLower | src/metalink.c:445 | the rendering is already lower case, so folding it changes nothing |
| MetalinkHash.RenderHex | src/metalink.c:379-445 | the file-hash buffer of 2*32+1 characters holds the rendering of the digest's first `size` bytes, followed by NUL |
| MetalinkHash.LowerHexCase | src/metalink.c:350-359 | the first `length` characters are folded to lower case and the rest of the buffer is unchanged |
| MetalinkHash.SlotPresent | src/metalink.c:395-411 | a type's slot is filled exactly when some record has that type |
| MetalinkHash.TypeCountPrefix | src/metalink.c:395-411 | a prefix of the records never has more records of a type than the whole list |
| MetalinkHash.SlotUnique | src/metalink.c:395-411 | without a duplicate, a type's slot holds the hash of the one record of that type |
| MetalinkHash.ElectedFrom | src/metalink.c:413-422 | from index i on, the elected type is the first filled slot, and there is none when no slot from i is filled |
| MetalinkHash.Elected | src/metalink.c:413-422 | the elected type is the first filled slot, that is the strongest supported type present |
| MetalinkHash.ElectedStrongest | src/metalink.c:413-422 | SHA-256 wins over SHA-1, which wins over MD5; with no supported type nothing is elected |
| MetalinkHash.CollectHashes | src/metalink.c:391-411 | filling fails exactly when two records share a supported type; on success each slot holds that type's hash or nothing |
| MetalinkHash.FillRecord | src/metalink.c:396-410 | one record either fills its type's empty slot, keeping the slots in step with the records seen, or finds the slot taken, which means a duplicate type |
| MetalinkHash.ResultCode | src/metalink.c:365-368 | the codes: 0 for the same hash, -1 for a different one, 1 for failure |
| MetalinkHash.ScanSlotsAsWritten | src/metalink.c:413 | the unbounded scan stops at the first filled slot, and runs past the array exactly when no slot is filled |
| MetalinkHash.ScanSlots | src/metalink.c:413-421 | the bounded scan returns the first filled slot, or HASH_TYPES when none is filled |
| MetalinkHash.FoldedDigest | src/metalink.c:447 | folding the first n characters of the descriptor's digest lowers exactly those and keeps the rest |
| MetalinkHash.WithHash | src/metalink.c:410 | the slot aliases its record's digest: writing through it changes exactly the records of that type |
| MetalinkHash.CopyDigest | src/metalink.c:160-161 | the descriptor's digest as a NUL-terminated buffer |
| MetalinkHash.VerifyFileHash | src/metalink.c:369-458 | as written: 1 without records, with a duplicated type, or when the file cannot be opened or hashed; undefined when no supported type is present or the digest is too short for folding; otherwise 0 exactly when the folded digest equals the rendered file hash, else -1; on those two paths the elected record's digest stays folded in the descriptor, and a failure leaves the descriptor unchanged |
| MetalinkHash.FoldedPrefix | src/metalink.c:447-448 | folding the first 2·size characters and comparing agrees with comparing the fully folded digest |
| MetalinkHash.VerifyFileHashFixed | src/metalink.c:369-458 | the intended check: never undefined; 1 exactly in the error cases, including no supported type; otherwise 0 exactly when the folded digest equals the rendered file hash, and the elected record's digest stays fully folded |
| Strings.XstrdupLower | src/utils.c:113-121 | a fresh copy of the string, folded to lower case |
| Strings.LowerFacts | src/utils.c:118-119 | folding keeps the length, leaves no upper-case letter, changes nothing else, and is the identity exactly on strings without upper-case letters |
| Strings.StrDupDelim | src/utils.c:126-133 | the copy is exactly the characters from `beg` up to `end` |
| Strings.DropSpacesFacts | src/utils.c:158-159 | what remains is a suffix that starts with a non-blank, and everything skipped was blank |
| Strings.DropSpacesKeepsCommas | src/utils.c:158-159 | skipping blanks removes no comma |
| Strings.FieldsAtComma | src/utils.c:151-161 | the element list splits at the first comma, with the blanks after it skipped |
| Strings.SepString | src/utils.c:138-169 | NULL for a missing or empty string; otherwise the comma-separated elements, with blanks after each comma skipped |
| Strings.EndElement | src/utils.c:151-161 | closing an element at a comma and skipping the blanks keeps "elements so far + elements of the rest = all elements" |
| Strings.SkipSpaces | src/utils.c:158-159 | the scan stops where skipping blanks stops |
| Strings.FieldsCount | src/utils.c:149-168 | there is one element more than there are commas |
| Strings.FieldsHaveNoComma | src/utils.c:149-168 | no element contains a comma |
| Strings.FieldsJoin | src/utils.c:135-169 | on a string with no blank after a comma, joining the elements with commas gives the string back |
| Strings.ConcatLength | src/utils.c:231-243 | the result's length is the sum of the lengths |
| Strings.ConcatPlacesEach | src/utils.c:245-258 | each argument appears in the result at the sum of the lengths before it |
| Strings.ConcatStrings | src/utils.c:220-263 | a fresh buffer of total length + 1 holding the arguments one after another, then NUL |
| Strings.SumLengths | src/utils.c:231-242 | the first loop computes the total length and saves the lengths of the first five arguments |
| Strings.CopyAt | src/utils.c:256-257 | copying a string at the output pointer appends it to what was written and leaves the rest of the buffer as it was |
| Strings.MergeVecs | src/utils.c:1050-1074 | the result is NULL only when both vectors are NULL, and its elements are those of the first vector followed by those of the second |
| Strings.QuoteSnoc | src/utils.c:1850-1885 | quoting one more character appends that character's entity |
| Strings.UnquoteEntity | src/utils.c:1852-1884 | each entity reads back as the character it replaced |
| Strings.QuoteRoundTrip | src/utils.c:1829-1888 | unquoting the quoted string gives the original back |
| Strings.QuoteIsClean | src/utils.c:1829-1888 | the quoted string has no `<`, `>`, `"` or space |
| Strings.ExtraLength | src/utils.c:1837-1847 | the sizing pass adds exactly the length of each entity beyond one character |
| Strings.HtmlQuoteString | src/utils.c:1829-1888 | a fresh buffer, sized by the first pass, holding the quoted string and NUL |
| Strings.QuoteStep | src/utils.c:1850-1885 | quoting a prefix one character longer appends that character's entity |
| Strings.PutEntity | src/utils.c:1852-1884 | one switch case writes the character's entity at the output pointer |
| Paths.Frontcmp | src/utils.c:660-665 | true exactly when the first string is a prefix of the second |
| Paths.TailScan | src/utils.c:732-741 | the backward scan stops at index −1 or where the characters differ |
| Paths.TailScanMatches | src/utils.c:732-747 | the scan exhausts the tail exactly when the tail fits and every aligned character matches |
| Paths.AlignedIsSuffix | src/utils.c:722-748 | matching the aligned characters, including both terminating NULs, is the same as being a suffix (case-insensitively when folding) |
| Paths.MatchTail | src/utils.c:722-748 | true exactly when the tail is a suffix of the string, case-insensitively when folding |
| Paths.MatchTailExamples | src/utils.c:715-717 | the documented examples: "bc" and "abc" end "abc", "ab" does not, and folding ignores case |
| Paths.HasWildcards | src/utils.c:807-814 | true exactly when the string contains `*`, `?`, `[` or `]` |
| Paths.InAcclist | src/utils.c:756-783 | true exactly when some entry accepts the string: by fnmatch if it has wildcards, otherwise as a suffix when matching backward, else by equality |
| Paths.InAcclistPlainTails | src/utils.c:768-775 | with no wildcards and backward matching, a string is accepted exactly when some entry ends it |
| Paths.SuffixScan | src/utils.c:795-796 | the backward scan stops at index 0 or at the last `/` or `.` |
| Paths.Suffix | src/utils.c:790-802 | the suffix starts just after a `.` with no `/` or `.` after it; there is none when every `.` is followed by a `/` |
| Paths.SuffixUnique | src/utils.c:790-802 | the suffix position is the one just after the last dot of the last path component |
| Paths.SuffixNoneWhen | src/utils.c:790-802 | a name whose every dot is followed by a slash has no suffix |
| Paths.SuffixExamples | src/utils.c:785-789 | the documented examples: "foo.bar" → "bar", "foo.bar.baz" → "baz", "/foo/bar" and "/foo.bar/baz" → none |
| Paths.HasHtmlSuffix | src/utils.c:825-839 | only a name with a suffix can be an HTML name |
| Paths.HtmlSuffixByEnding | src/utils.c:816-839 | a name is HTML exactly when it ends (case-insensitively) in ".html" or ".htm", or in "." plus one character other than `/` or `.` plus "html" |
| Paths.HtmlSuffixEnds | src/utils.c:825-839 | every name the test accepts has one of the three endings |
| Paths.WordEnding | src/utils.c:832-835 | a name ending in ".html" or ".htm" is accepted |
| Paths.OneMoreEnding | src/utils.c:836-837 | a name ending in "." plus one character plus "html" is accepted |
| Paths.LastIndexOf | src/utils.c:618 | the last occurrence of the character, or none when it does not occur |
| Paths.FileMerge | src/utils.c:614-629 | the result ends with the file name, preceded by the base's directory part (up to and including its last `/`, or nothing) |
| Paths.FileMergeExamples | src/utils.c:605-610 | the documented examples: ("/foo/bar", "baz") → "/foo/baz", ("/foo/bar/", "baz") → "/foo/bar/baz", ("foo", "bar") → "bar" |
| Paths.NumberedNameInjective | src/utils.c:466-470 | different counts give different names |
| Paths.UniqueName1 | src/utils.c:458-474 | the name is the prefix, a dot and the smallest count from 1 whose name does not exist |
| Paths.UniqueName | src/utils.c:492-503 | the name never exists; it is the file itself when that does not exist, otherwise its first free numbered name |
| Numbers.NumLen | src/utils.c:1444-1468 | the number of decimal digits of m: the k with 10^(k−1) ≤ m < 10^k |
| Numbers.NumLenUnique | src/utils.c:1444-1468 | that digit count is unique |
| Numbers.PaddedFacts | src/utils.c:1313-1337 | printing n in k digits gives k digits that read back as n |
| Numbers.PaddedFront | src/utils.c:1313-1314 | ONE_DIGIT_ADVANCE writes n / 10^(k−1) and leaves the remainder for the next k−1 digits |
| Numbers.DecimalRoundTrip | src/utils.c:1397-1414 | reading back the printed number gives the number, with as many digits as the magnitude has plus one for a minus sign |
| Numbers.DigitsRoundTrip | src/utils.c:1444-1468 | the magnitude is printed without leading zeros and reads back as itself |
| Numbers.DecimalInjective | src/utils.c:1397-1414 | different numbers print differently |
| Numbers.DecimalFitsBuffer | src/utils.c:1410-1414 | every 64-bit number prints in at most 20 characters, so 24 bytes suffice |
| Numbers.DivisionsCountDigits | src/utils.c:1308-1309 | the division loop runs once per digit after the first |
| Numbers.NumDigit | src/utils.c:1298-1311 | the intended count: the length of the printed number, sign included |
| Numbers.NumDigitAgrees | src/utils.c:1299-1311 | on every 64-bit number except the most negative, numdigit as written gives the length of the printed number |
| Numbers.NumDigitMinimumWrong | src/utils.c:1303-1309 | on the most negative 64-bit number, numdigit as written, with the negation wrapping in two's complement, answers 2, while that number prints in 20 characters |
| Numbers.NumberToString | src/utils.c:1416-1475 | the buffer holds the decimal form of the number, sign included, followed by NUL, and the returned end index is its length |
| Numbers.MagnitudeBound | src/utils.c:1468 | every positive 64-bit magnitude is below 10^19, so DIGITS_19 is the last case |
| Numbers.PrintMagnitude | src/utils.c:1444-1471 | the magnitude's digits are written after what is already there, then NUL |
| Numbers.CopyText | src/utils.c:1431-1437 | the sprintf fallback for the most negative number writes the text and NUL |
| Numbers.DigitCount | src/utils.c:1444-1468 | the if-chain picks the digit count of n and the figure 10^(k−1) |
| Numbers.OneDigitAdvance | src/utils.c:1313-1314 | writes one digit at p, changes no other cell, and leaves the remainder below the next figure |
| Numbers.DigitsK | src/utils.c:1316-1337 | the DIGITS_k expansion writes n as exactly k digits and leaves the buffer before it unchanged |
| Numbers.NumberRing.constructor | src/utils.c:1536-1537 | three fresh 24-byte buffers and position 0 |
| Numbers.NumberRing.NumberToStaticString | src/utils.c:1533-1542 | prints into the buffer at the ring position, returns that buffer, and advances the position modulo 3 |
| Numbers.ThreeAtATime | src/utils.c:1523-1531 | three calls in a row return three distinct buffers, and the first still holds its number; a fourth call reuses the first buffer |
| Numbers.GroupedPrefix | src/utils.c:1250-1255 | the output so far depends only on the input read so far and on the total length modulo 3 |
| Numbers.GroupedShort | src/utils.c:1244-1247 | numbers of at most three digits get no separator |
| Numbers.GroupedIsGroupThousands | src/utils.c:1244-1255 | the two copying loops produce the number grouped in threes from the right |
| Numbers.GroupedLastGroup | src/utils.c:1250-1255 | the last three digits are preceded by a separator when more digits come before |
| Numbers.GroupedStep | src/utils.c:1250-1255 | each step of the second loop appends one digit, after a separator when one is due |
| Numbers.GroupThousandsStrips | src/utils.c:1224-1259 | removing the separators gives the digits back |
| Numbers.GroupThousandsShape | src/utils.c:1224-1259 | one separator per full group after the first, and the first and last digits stay in place |
| Numbers.SeparatorRule | src/utils.c:1252 | the test `i % 3 == 0 && i1 != 0` puts a separator exactly where the grouping from the right needs one |
| Numbers.HeadHasNoSeparator | src/utils.c:1246-1247 | the leading digits copied before the loop never get a separator |
| Numbers.LegibleOne | src/utils.c:1224-1259 | the output is the sign, if any, followed by the digits grouped in threes |
| Numbers.GroupDigits | src/utils.c:1243-1255 | the two loops produce the digits grouped in threes |
| Numbers.LegibleNumber | src/utils.c:1263-1270 | legible prints the number and then groups it |
| Numbers.LegibleStrips | src/utils.c:1263-1270 | removing the separators from legible's output gives back the printed number |
| Numbers.LegibleExample | src/utils.c:1224-1259 | −1234567 is shown as "-1,234,567" |
| Numbers.GroupThousandsExample | src/utils.c:1224-1259 | 1234567 is grouped as "1,234,567" |
| StringList.SNode.constructor | src/utils.c:1116-1118 | a node holds its string and the given successor |
| StringList.Strings | src/utils.c:1093-1146 | one string per node |
| StringList.SlistPrepend | src/utils.c:1113-1120 | the new node is the head, followed by the old list |
| StringList.SlistAppend | src/utils.c:1093-1109 | the new string is added at the end, the old nodes keep their order, and the head is unchanged unless the list was empty |
| StringList.SlistNreverse | src/utils.c:1124-1136 | relinks the same nodes in reverse order |
| StringList.ReversedLinks | src/utils.c:1127-1135 | nodes each pointing back to their predecessor form the reversed list |
| StringList.StringsOfReverse | src/utils.c:1124-1136 | the strings of the reversed list are the reversed strings |
| StringList.SlistContains | src/utils.c:1139-1146 | true exactly when the string is in the list |
| StringList.PrependThenReverse | src/utils.c:1088-1091 | prepending and then reversing gives the strings in the order they were added, as the comment before slist_append suggests |

## Left out

- Logging, `DEBUGP` and the `silent` flag of `lookup_host` have no effect on results, so they are not modelled.
- `pretty_print_address`, `lookup_host_passive`, `accept_domain` and the timeout wrappers around the resolvers are not part of this model.
- Host.LookupHost: the resolver calls (`inet_addr`, `gethostbyname`, `getaddrinfo`) are an input value. The build option `ENABLE_IPV6` is the choice of resolver variant. The numeric-address shortcut exists only in the IPv4 build, as in the source.
- Host.AddressList.Find: the IPv6 scope id is always compared, as when `HAVE_SOCKADDR_IN6_SCOPE_ID` is defined.
- `hash.c` is not part of this model. The cache's hash table is a map keyed by the lower-cased host name, which is what the case-insensitive string table provides.
- Host.HostCache.ForgetHostLookup requires the table to exist, because the source calls `hash_table_get` on it without a NULL check.
- Host.HostCache.CacheHostLookup requires the host to be absent from the cache. `lookup_host` only calls it after a cache miss, and the source's overwrite of an existing entry would leak the old list.
- Host.HostCache.HostCleanup: freeing the key strings is not modelled, because host names are values here. The `assert (al->refcount == 1)` of the mapper is a precondition.
- Host.AddressList.Release: memory release is the ghost flag `deleted`. Use after free is not modelled.
- `metalink_parse_file`, `metalink_delete` and `delete_mlink` (libmetalink and the descriptor's destructor) are not part of this model. Parsing starts from the tree libmetalink returns.
- Metalink.ParseMetalink does not model the undersized `malloc (sizeof(mlink))` at src/metalink.c:78, which allocates a pointer's size for the descriptor. Fields are values here.
- Metalink.ParseFile leaves out a leak: a checksum record that is skipped (src/metalink.c:145-158) is allocated and never freed. The chunk checksum is allocated but never linked into the file (src/metalink.c:167-192), so the descriptor has none, as the model states. The piece-hash loop only logs.
- Metalink.ElectFileChecksums does not model the heap effect of relinking the last node to the head's successor. The outcome records that the head was freed while still linked (`FreedHead`).
- Metalink.ParseFile: the tree's checksum list is always a (possibly empty) sequence, so a file whose `checksums` array is NULL, which the loop at src/metalink.c:143 would dereference, is not modelled.
- Metalink.ElectResources and Metalink.ElectChecksums work on sequences, not on the nodes themselves. After undefined behaviour the model stops: it does not say what the rest of the walk would do.
- MetalinkHash.CopyDigest: checksum records are values, so the fold runs on a copy of the elected digest and is written back into the record list returned as `after`. Aliasing between `metalink_hashes` and the records is not modelled beyond that write-back.
- MetalinkHash.VerifyFileHash says nothing about `after` when the digest is too short for the fold (Undefined): lower_hex_case then reads past the end of the string (undefined behaviour) and writes wherever a byte there is an upper-case letter.
- MetalinkHash.VerifyFileHash takes the file's digest (`hash_raw`) and the success of `fopen` and of the hash function as inputs. The SHA and MD5 algorithms are not modelled.
- Numbers.NumberToString and the other `wgint` members model only the 64-bit build (SIZEOF_WGINT == 8). The 32-bit `wgint` build, with its smaller bounds and digit counts, is not modelled.
- Numbers.NumberRing: the ring buffers are separate arrays, not one static two-dimensional array. Callers cannot alias them.
- Numbers.LegibleOne returns a fresh string rather than a pointer into a static 48-byte buffer. `legible_large_int` and `large_int_to_string` are not modelled, because they only differ in the integer type.
- Strings.ConcatStrings and Paths.UniqueName1: the `int` total length and the `int` counter are unbounded here, so overflow past 2^31 − 1 is not modelled.
- Paths.UniqueName: `allow_passthrough` only decides whether the caller gets the same pointer or a copy. Names are values here, so both cases return the file name.
- Paths.InAcclist: `fnmatch` is an input predicate.
- `aprintf`, `unique_create`, `acceptable`, `proclist` and the other `utils.c` functions not listed above are not part of this model.
- Strings, Paths and Numbers take strings as `seq<char>`, which may contain '\0'. A C string cannot, so an input with an embedded NUL has no C counterpart; the C functions would stop at the first NUL.
- Strings.SepString returns a sequence of values instead of a reallocated NULL-terminated vector.

## Findings

| source | as written | input that shows it | evidently intended | confidence | as-written member | corrected member |
|---|---|---|---|---|---|---|
| src/metalink.c:211, 223 | `strcmp (type, "ftp") \|\| strcmp (type, "http")` is nonzero for every type, so every resource is unlinked | a file whose only resource has type "http": it is unlinked and the list becomes empty | keep the FTP and HTTP resources (`&&`), but never unlink a file's last resource | not executed | Metalink.NoResourceSurvives | Metalink.ElectFileResourcesFixed |
| src/metalink.c:207-208 | `prev = file->resources; res = prev->next;` reads the list head without a test, though parse_metalink keeps a file with no resource | a file whose only resource lacks a URL (Metalink.FileWithoutUrls): `prev->next` reads through NULL | skip a file with an empty list | not executed | Metalink.ElectFileResources | Metalink.ElectFileResourcesFixed |
| src/metalink.c:211, 223 | `strcmp (res->type, "ftp")` is called on a type that parse_metalink leaves NULL when the resource has none | a file with one resource that has a URL but no type (Metalink.UntypedResourceKept): strcmp reads through NULL | treat a resource without a type as not directly supported | not executed | Metalink.ElectFileResources | Metalink.ElectFileResourcesFixed |
| src/metalink.c:240-241 | `prev = file->checksums; csum = prev->next;` reads the list head without a test, though parse_metalink keeps a file with no checksum | a file whose only checksum record lacks a hash (Metalink.FileWithoutChecksums): `prev->next` reads through NULL | skip a file with an empty list | not executed | Metalink.ElectFileChecksums | Metalink.ElectFileChecksumsFixed |
| src/metalink.c:213-214, 247-248 | after `prev->next = res->next; free (res);` the cursor stays on the freed node, and the loop reads it again | a file with two resources: the second is freed and its `type` is read again | advance the cursor to `prev->next` after unlinking | not executed | Metalink.UnlinkPassAsWritten | Metalink.UnlinkPass |
| src/metalink.c:244-245 | a record is unlinked when its type is found among the supported hashes | checksums of types "md5" then "sha1": the sha1 record is freed and read again | drop the unsupported types and keep the supported ones | not executed | Metalink.ElectFileChecksums | Metalink.ElectFileChecksumsFixed |
| src/metalink.c:256-262 | the head is unlinked through `prev`, the last node of the walk, instead of through `file->checksums` | a single "sha256" record: it is freed while `file->checksums` still points to it | set `file->checksums` to the head's successor | not executed | Metalink.ElectChecksums | Metalink.ElectFileChecksumsFixed |
| src/metalink.c:413 | `for (i = 0; !metalink_hashes[i]; ++i);` has no bound | only a "crc32" record: the scan reads `metalink_hashes[3]`, past the array, before the `i == HASH_TYPES` test | stop at HASH_TYPES and report that no supported hash exists | not executed | MetalinkHash.ScanSlotsAsWritten | MetalinkHash.ScanSlots |
| src/metalink.c:447 | `lower_hex_case` scans 2 × digest-size bytes of the descriptor's hash, whatever its length | a "sha256" record with hash "ABC": 64 bytes are read from a 4-byte buffer | fold the hash as far as it goes, then compare | not executed | MetalinkHash.VerifyFileHash | MetalinkHash.VerifyFileHashFixed |
| src/utils.c:1303-1309 | `number = -number` overflows for the most negative `wgint`, which C leaves undefined; with the two's-complement wrap common compilers produce, the number stays negative and the division loop never runs | numdigit (−9223372036854775808) returns 2 in a wrapping build, but the number prints in 20 characters | count the digits of the magnitude without negating in 64 bits | not executed | Numbers.NumDigitMinimumWrong | Numbers.NumDigit |
