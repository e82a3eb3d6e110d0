# The MaxMind reader in libgeoip, modelled in Dafny

`libgeoip` looks IP addresses up in a database file. The file is a flat array of node pairs, each
pair holding a left and a right pointer; a pointer that reaches the *segment value* is a leaf. Behind
the index may come records, and the end of the file says which edition it is. The project models the
lookups, the range search built on them, the handle with its caches and reloading, the record and
name readers, the address text and charset conversions, and the locked `pread` replacement.

| file | contents |
|---|---|
| `Bits.dfy`, `Bytes.dfy` | C's unsigned operators on naturals; file reads; little-endian decoding |
| `Trie.dfy` | the index bytes as an abstract binary trie, lookups in it, prefix blocks |
| `Footer.dfy` | structure information: marker scan, editions, segment value, index size |
| `GeoIP.dfy` | the handle class: opening, segment set-up, reload on a changed file |
| `Lookup.dfy`, `LookupV6.dfy` | the bit loops in their three reading modes; Teredo |
| `Range.dfy` | the range search |
| `Runs.dfy` | whole runs of clock ticks, file replacements and lookups |
| `Address.dfy`, `Charset.dfy` | dotted quads; ISO-8859-1 to UTF-8 |
| `City.dfy`, `Names.dfy`, `Info.dfy` | city records and their iteration; names; the description text |
| `PreadProtocol.dfy` | seek/read/restore on a shared position under a lock |

Conventions. C integers are unbounded `int`s with every wrap-around written out (32-bit `unsigned int`,
64-bit `unsigned long`, signed `char` for the edition). `&`, `^`, `~`, `<<` and `>>` are recursive
functions over binary digits, and the arithmetic reading of each mask is a lemma. Objects the C code
updates in place (`GeoIP`, `GeoIPLookup`, `GeoIPRecord`, the read position) are classes, output buffers
are arrays, and the open file, the caches and strings being read are byte sequences. The clock and the
file behind the path are a `System` object; a file read is a total read of an unchanging snapshot. What
`malloc` or the stack leaves in a read buffer is a parameter (`garbage`). Lookups on a handle whose record
length a reload did not change, and reads of records and names that fit their buffers, do not depend on
it; reads that fall short or reach past the end of the file may, and the walk with a stale pair length
decodes it.

## What does not hold, and when it does

* The record pair length is computed before the reload check. From disk, from a full cache and from an
  index cache alike, the walk is the plain one for every file and address exactly when the record length
  did not change (`StaleStride`; `StaleExample` has a 23-byte City and a 23-byte Organization file on
  which the stale walk ends at another leaf).
* An address argument of more than 32 bits is looked up with bit 31 set, because `1 << 31` is a negative
  `int` that widens to 64 bits (`BitMaskSelects`).
* An index cache holds every node a lookup can visit exactly when the segment value is at least 1, the
  edition has no content, or the file has no node (`IndexCoverage`). Lookups through it are right in
  exactly these cases (`IndexCacheFinds`; `ZeroSegmentExample` is a 13-byte file on which all of them fail).
* A reload leaves what a fresh open would exactly when that open succeeds (`ReloadIsReopen`). When it
  would fail, every field but the index cache is still that of the new file; the index cache disagrees,
  holding the old file's index, exactly when one is in use and the new footer is unreadable or its index
  does not fit. An unreadable footer also leaves no segment value (`ReloadAgrees`; `ReloadDisagrees` has
  an empty file and a bare footer that do this). An empty file that has to be mapped leaves the old
  structure with size 0 (`EmptyMapping`), which no lookup comes to use (`ShortFileMisses`).
* Without a segment value a lookup ends exactly when the file is shorter than a node (`NoSegmentWalk`).
* The `pread` replacement ignores whether its last seek succeeds. Results do not depend on that; the
  shared position does (`EveryInterleaving`).
* The description text is looked for from the size the handle had before the reload check. Every file is
  read as from its own end exactly when the size did not change or is below six bytes (`StaleSize`).
* A footer with segment value 0xFFFFFF reads as a marker and is rejected (`FooterRoundTrip`).
* A failed walk returns 0, which callers use as a leaf; its data pointer leads into the index
  (`PointerOfAnswer`). Pointers of four-byte editions may not fit an `int` (`PointerBehindIndex`).
* Disk mode shows records of more than 50 bytes and names of 300 bytes (301 in the IPv6 functions) or
  more differently from memory mode (`City.ModesAgree`, `NameModes`).
* A field of address text is only compared with 255 after wrapping at 32 bits, so `4294967297.0.0.0`
  is 1.0.0.0 (`WrappedFieldAccepted`; `AnyFourNumbers` is the exact condition).

## Model

| member | source | states |
|---|---|---|
| Bits.AndBit | libgeoip/GeoIP.c:1376 | `ipnum & (1 << depth)` is non-zero exactly when that bit of the address is set |
| Bits.AndHigh | libgeoip/GeoIP.c:2497-2498 | masking with ones above bit k rounds down to a multiple of 2^k |
| Bits.BlockBounds | libgeoip/GeoIP.c:2504-2515 | agreeing above bit f is the same as lying in one aligned block of size 2^f |
| Bytes.Le3RoundTrip | libgeoip/GeoIP.c:1041-1043 | three-byte little-endian encoding and decoding are inverse both ways |
| Bytes.DecodeGeneral | libgeoip/GeoIP.c:1386-1392 | the shift-and-add loop yields the little-endian value of the record, without overflow |
| Bytes.DecodeHalf | libgeoip/GeoIP.c:1376-1412 | both halves, unrolled or general, yield the same little-endian value |
| Bytes.SumBytes | libgeoip/GeoIP.c:1041-1043 | the summing loop yields the little-endian value of its three bytes |
| Trie.FindStep | libgeoip/GeoIP.c:1376-1418 | one read pointer decides the rest of the walk: leaf, or the subtrie it names |
| Trie.HitRange | libgeoip/GeoIP.c:1414-1416 | a hit consumed a bit, and its value is at least the segment value and fits its field |
| Trie.PrefixBlock | libgeoip/GeoIP.c:1414-1416 | every address agreeing with a hit above its unread bits gets the same answer |
| Trie.NetmaskIsPrefix | libgeoip/GeoIP.c:1414-1416 | the netmask is 1..width, and agreeing on that many top bits means equal value and netmask |
| Trie.NetblockAnswers | libgeoip/GeoIP.c:2496-2499 | the aligned interval of a hit's netmask has one answer |
| Trie.WalkSplits | libgeoip/GeoIP.c:1257-1319 | a walk cut at any depth continues as a shorter walk from the node reached |
| Trie.LookupIsPath | libgeoip/GeoIP.c:1357-1419 | a lookup hits with a value and netmask if and only if the bytes hold a path of that length from the root to that leaf, right halves for set bits |
| Footer.EditionNumbering | libgeoip/GeoIP.c:979-986 | editions up to 22 are known under both numberings, higher ones not under the old |
| Footer.ScanSelectsLast | libgeoip/GeoIP.c:973-1063 | the backward scan finds the last marker of its windows, or says why it found none |
| Footer.MarkerFound | libgeoip/GeoIP.c:973-979 | a position is selected exactly when it is the last marker in the final twenty windows |
| Footer.StructureBounds | libgeoip/GeoIP.c:968-1083 | whatever the bytes, the segment value is below 2^24 and the record length 3 or 4 |
| Footer.FooterRoundTrip | libgeoip/GeoIP.c:973-1055 | marker, edition and segment value appended to any bytes are recovered, except segment 0xFFFFFF |
| Footer.NoMarkerMeansCountry | libgeoip/GeoIP.c:1056-1073 | without a marker, 23 bytes or more are a Country Edition and fewer are rejected |
| Footer.EditionTable | libgeoip/GeoIP.c:979-1082 | for every edition byte and file: the edition number, its segment value (constant, stored, or none) and its record length |
| Footer.MarkerAtEnd | libgeoip/GeoIP.c:979-982 | a marker with nothing behind it is rejected |
| Footer.IndexSizeDelimits | libgeoip/GeoIP.c:933-957 | the computed size is the only number that ends at the last node below the segment value (the file, when no records follow), or is -1 when such a node lies outside the file |
| Footer.IndexTable | libgeoip/GeoIP.c:920-957 | the index of editions 1, 3, 7, 8, 10, 12, 17 and 18 is the whole file, that of all others their nodes, or -1 |
| GeoIPDatabase.GetIndexSize | libgeoip/GeoIP.c:933-957 | returns the size that delimits the nodes below the segment value, -1 exactly when one of them ends behind the file |
| GeoIPDatabase.ReadStructure | libgeoip/GeoIP.c:979-1055 | behind a marker: edition and, if stored, segment value and record length, or what a short read leaves |
| GeoIPDatabase.SetupSegments | libgeoip/GeoIP.c:959-1083 | leaves segment value, edition and record length as the file's footer defines them |
| GeoIPDatabase.CheckMtime | libgeoip/GeoIP.c:1085-1234 | reloads exactly under the adoption condition and leaves all fields as specified, corrupt files included |
| GeoIPDatabase.GeoIPOpen | libgeoip/GeoIP.c:1509-1615 | fails exactly on unreadable structure or a misfit index; otherwise every field describes the file |
| GeoIPDatabase.OpenedMeans | libgeoip/GeoIP.c:1535-1612 | when an open succeeds, and each field then: caches exactly as the flags ask, time stamp, segment value, edition |
| GeoIPDatabase.ConstantEditionsOpen | libgeoip/GeoIP.c:1061-1082 | files of the editions without records open whatever precedes the footer, with that edition's segment value and the whole file as index |
| GeoIPDatabase.ReloadIsReopen | libgeoip/GeoIP.c:1129-1230 | a reload leaves what a fresh open of the new version would, if and only if that open succeeds, also after reloads that gave up |
| GeoIPDatabase.ReloadAgrees | libgeoip/GeoIP.c:1129-1230 | unless an empty file had to be mapped, all fields but the index cache are the new file's; the index cache is the old one exactly when in use and the new footer is unreadable or its index misfit |
| GeoIPDatabase.EmptyMapping | libgeoip/GeoIP.c:1168-1182 | an empty file that cannot be mapped leaves size 0, no cache, and the old structure and index cache |
| GeoIPDatabase.ReloadDisagrees | libgeoip/GeoIP.c:1201-1228 | two reloads, to an empty file and to a bare footer, that keep the old 23 bytes as the index |
| GeoIPDatabase.DescribesIsCoherent | libgeoip/GeoIP.c:1509-1615 | an opened handle's fields and caches agree with the bytes of its file |
| IPv4Lookup.IndexCoverage | libgeoip/GeoIP.c:933-957 | the index cache holds every visitable node if and only if segment >= 1, no content, or no node |
| IPv4Lookup.IndexCacheFinds | libgeoip/GeoIP.c:1357-1419 | with an index cache, lookups are the abstract ones for all addresses if and only if the cache covers them |
| IPv4Lookup.ZeroSegmentExample | libgeoip/GeoIP.c:933-957 | a file with segment value 0 whose every address hits, and on which every lookup through the empty index cache fails |
| IPv4Lookup.ShortFileMisses | libgeoip/GeoIP.c:1357-1362 | on a file shorter than a node every lookup returns 0, with a segment value or without |
| IPv4Lookup.NoSegmentWalk | libgeoip/GeoIP.c:1357-1416 | without a segment value these are the only lookups that end |
| IPv4Lookup.CacheModesAgree | libgeoip/GeoIP.c:1363-1374 | disk, full cache and index cache read the same node bytes, for any file content |
| IPv4Lookup.ProductFits | libgeoip/GeoIP.c:1358 | the 32-bit product locating a visited node never wraps |
| IPv4Lookup.ModeFindIsFind | libgeoip/GeoIP.c:1357-1419 | with the proper pair length the walk over a mode's own bytes reads inside its buffers and is the walk of the trie in the file |
| IPv4Lookup.ReadyFinds | libgeoip/GeoIP.c:1357-1419 | on an opened file a lookup is the abstract lookup, whatever the stack buffer held |
| IPv4Lookup.ModesAgree | libgeoip/GeoIP.c:1357-1419 | one file opened in any two modes gives equal values and netmasks for every address |
| IPv4Lookup.NextPointer | libgeoip/GeoIP.c:1363-1412 | reading and decoding give the selected half of the node the mode's buffer holds, none for a short read |
| IPv4Lookup.BitMaskSelects | libgeoip/GeoIP.c:1376 | for every 64-bit argument the mask tests a bit of one 32-bit address: the argument's low bits, bit 31 set if any higher is |
| IPv4Lookup.Walk | libgeoip/GeoIP.c:1357-1425 | the bit loop refines the recursive walk over the mode's bytes, for any pair length |
| IPv4Lookup.SeekRecord | libgeoip/GeoIP.c:1341-1426 | checks for a new file, then returns the walk's value with the old pair length and sets both netmasks, or returns 0 and sets neither |
| IPv4Lookup.StaleStride | libgeoip/GeoIP.c:1354-1412 | in every mode and for every pair and record length, the walk is the plain one for all files if and only if the record length is unchanged |
| IPv4Lookup.StaleExample | libgeoip/GeoIP.c:1354-1412 | two files, in each mode, on which a stale pair length ends at another leaf |
| IPv6Lookup.BigEndianBit | libgeoip/GeoIP.h:54-59 | bit k of a network-order number sits in byte k / 8 from the end |
| IPv6Lookup.ChkBitSelects | libgeoip/GeoIP.h:57-59 | the byte and bit selector picks bit `depth` of the 128-bit address |
| IPv6Lookup.PrepareTeredo | libgeoip/GeoIP.c:658-680 | in place: twelve zero bytes and the inverted client for 2001:0000::/32, nothing else changed |
| IPv6Lookup.TeredoRewrite | libgeoip/GeoIP.c:675-679 | a Teredo address (section 4 of RFC 4380) becomes ::a for its client address a |
| IPv6Lookup.TeredoOnly | libgeoip/GeoIP.c:658-680 | every address outside 2001:0000::/32 stays as it is; inside, twelve zeros and the last four bytes inverted |
| IPv6Lookup.TeredoIdempotent | libgeoip/GeoIP.c:658-680 | rewriting twice is rewriting once, and exactly the addresses in 2001:0000::/32 change |
| IPv6Lookup.SoughtMeans | libgeoip/GeoIP.c:1254-1256 | the lookup follows the address as given, unless the rewrite is enabled and it is in 2001:0000::/32; then the number of its inverted last four bytes |
| IPv6Lookup.DescendTop | libgeoip/GeoIP.c:1257-1319 | the top of a walk depends only on the top bits |
| IPv6Lookup.TeredoLookup | libgeoip/GeoIP.c:1254-1319 | a Teredo lookup equals that of ::a, and the 32-bit walk from ::/96 with netmask plus 96 |
| IPv6Lookup.Walk6 | libgeoip/GeoIP.c:1257-1327 | the 128-bit loop refines the recursive walk over the mode's bytes, for any pair length |
| IPv6Lookup.SeekRecordV6 | libgeoip/GeoIP.c:1237-1328 | as the IPv4 lookup, at the address it follows, which is the one given unless that is in 2001:0000::/32 with the rewrite enabled |
| RangeSearch.RangeIsUnique | libgeoip/GeoIP.c:2501-2518 | the two ends are the only interval that contains the address, has one value and is maximal |
| RangeSearch.RangesPartition | libgeoip/GeoIP.c:2477-2523 | an address inside a range has that range; any two ranges are identical or disjoint |
| RangeSearch.MaskArithmetic | libgeoip/GeoIP.c:2497-2515 | the mask expressions compute the first and last address of the netblock, within 32 bits |
| RangeSearch.Netblock | libgeoip/GeoIP.c:2497-2499 | the block computed from a reported netmask contains the address and has its value throughout |
| RangeSearch.LeftJump | libgeoip/GeoIP.c:2501-2507 | jumping a netblock left keeps the value, moves strictly, and keeps the end looked for |
| RangeSearch.RightJump | libgeoip/GeoIP.c:2510-2517 | likewise to the right |
| RangeSearch.ExtendLeft | libgeoip/GeoIP.c:2501-2507 | the left loop terminates at the end found one address at a time |
| RangeSearch.ExtendRight | libgeoip/GeoIP.c:2510-2517 | the right loop terminates at the end found one address at a time |
| RangeSearch.EqualValueHits | libgeoip/GeoIP.c:2501-2517 | an address with the value of one that hits, hits: the loops never use a netmask of a failed walk |
| RangeSearch.QuietSearch | libgeoip/GeoIP.c:2495-2517 | when no lookup after the first finds a new file, all of a search's lookups answer as the file the first one read, at whatever times they come |
| RangeSearch.RangeByIp | libgeoip/GeoIP.c:2477-2523 | when all its lookups answer as one trie does, whatever they find, returns the texts of both ends of the maximal range in it; both netmasks end as the address's own |
| Runs.EveryRunIsSafe | libgeoip/GeoIP.c:1085-1356 | in every run, whatever files appear: the version served was quiet for over 60 seconds when adopted; if it can be opened all fields describe it; and every answer from a usable version is the plain lookup in it, but for one whose own reload changed the record length |
| Runs.QuerySafe | libgeoip/GeoIP.c:1129-1228 | a lookup keeps the handle serving one version, and answers as that file by itself when it is usable and its records are as long as before, which without a reload they are |
| Runs.SafeIsReady | libgeoip/GeoIP.c:1352-1374 | such a lookup finds what the lookup methods need |
| Runs.QuietFileIsServed | libgeoip/GeoIP.c:1110-1133 | the first lookup in a second notices a file quiet for over a minute with another time stamp |
| Runs.LookupAdopts | libgeoip/GeoIP.c:1101-1133 | in every run a lookup takes the file up exactly when checking is on, no lookup came before in that second, and the file's time stamp is new and over a minute old |
| Runs.OneCheckASecond | libgeoip/GeoIP.c:1108-1113 | after a lookup, nothing that happens in the same second changes the version served or a field of the handle |
| Runs.NoCheckNoChange | libgeoip/GeoIP.c:1097 | without the check flag the handle never changes |
| Runs.UsableMeans | libgeoip/GeoIP.c:1201-1228 | which versions the answers above are stated for |
| Runs.QueryStep | libgeoip/GeoIP.c:1341-1426 | the lookup method takes exactly the step that runs record: the answer's value and netmask, or 0 and the old netmasks; for a usable version with records as long as before it is the plain answer |
| Runs.QueryStep6 | libgeoip/GeoIP.c:1237-1328 | likewise for the IPv6 lookup, at the rewritten address |
| Address.JoinFields | libgeoip/GeoIP.c:1437-1455 | splitting a text at its dots loses nothing |
| Address.AddrToNum | libgeoip/GeoIP.c:1428-1462 | four digit fields of at most 255 (wrapped) give their base-256 value, every other text 0 |
| Address.FourFields | libgeoip/GeoIP.c:1437-1462 | any four dot-free texts joined by dots denote their base-256 value if and only if all are octets, else 0 |
| Address.AnyFourNumbers | libgeoip/GeoIP.c:1447-1458 | four printed numbers of any size are accepted if and only if each is at most 255 modulo 2^32 |
| Address.OctetMeans | libgeoip/GeoIP.c:1437-1458 | a field is accepted exactly when it is empty or all digits and its value is at most 255 modulo 2^32 |
| Address.ThreeDots | libgeoip/GeoIP.c:1437-1458 | a text without exactly three dots is 0 |
| Address.WrappedFieldAccepted | libgeoip/GeoIP.c:1447-1450 | the text 4294967297.0.0.0 is read as 1.0.0.0 |
| Address.PrintThenParse | libgeoip/GeoIP.c:2449-2475 | parsing a printed number gives its low 32 bits, so the number itself if and only if it had no others |
| Address.ParseThenPrint | libgeoip/GeoIP.c:2449-2475 | printing a parsed text gives it back if and only if it is a canonical dotted quad |
| Address.DottedFields | libgeoip/GeoIP.c:2449-2475 | the printed text has four plain fields and at most fifteen characters |
| Address.SplitOctets | libgeoip/GeoIP.c:2459-2462 | the first loop stores the four low bytes, most significant first |
| Address.NumToAddr | libgeoip/GeoIP.c:2449-2475 | fills a sixteen-byte buffer with the dotted quad and its NUL |
| Charset.DecodeConverted | libgeoip/GeoIP.c:859-889 | strict UTF-8 decoding (section 3 of RFC 3629) of the output gives every input byte as a code point |
| Charset.Utf8Length | libgeoip/GeoIP.c:867-872 | the output is one byte longer for each input byte of 0x80 or more |
| Charset.ClearBit6 | libgeoip/GeoIP.c:881 | `c &= ~0x40` leaves the continuation byte of the code point |
| Charset.SizePass | libgeoip/GeoIP.c:867-873 | the first pass counts exactly the converted bytes and the NUL |
| Charset.Iso88591ToUtf8 | libgeoip/GeoIP.c:859-889 | the allocated buffer is filled exactly with the UTF-8 text and its NUL |
| City.EncodeMeans | libgeoip/GeoIPCity.c:110-176 | the stored form, byte for byte |
| City.ShownMeans | libgeoip/GeoIPCity.c:110-176 | the record a caller sees, field for field: empty strings absent, the city alone converted, codes only for US records of Rev 1 |
| City.ParseEncoded | libgeoip/GeoIPCity.c:110-176 | parsing inverts encoding for every storable record, whatever follows it; a string is absent exactly when it is empty |
| City.EveryParse | libgeoip/GeoIPCity.c:110-176 | whatever a buffer holds, what is parsed from it is a stored record at its front |
| City.NoRecordThere | libgeoip/GeoIPCity.c:74-107 | no record at the segment value, or for a pointer behind the file, in any mode |
| City.StoredBehindIndex | libgeoip/GeoIPCity.c:83-84 | a record number names the bytes behind the index at its distance from the segment value |
| City.PointerBehindIndex | libgeoip/GeoIP.c:2361-2362 | a leaf value x maps to index size + (x - segment) if and only if the sum fits an int, and to the int with the same low 32 bits otherwise |
| City.PointerFits | libgeoip/GeoIPCity.c:83-84 | three-byte pointers always fit; a four-byte one that does not |
| City.PointerOfAnswer | libgeoip/GeoIP.c:2356-2362 | the data pointer stays out of the index if and only if the lookup hit |
| City.ExtractRecord | libgeoip/GeoIPCity.c:62-188 | fills a fresh record with the parsed fields and stores the next record number, or reports no record, always so at the segment value |
| City.FillStrings | libgeoip/GeoIPCity.c:110-150 | country and three strings are taken from the front of the buffer, empty ones absent |
| City.FillNumbers | libgeoip/GeoIPCity.c:152-176 | coordinates and, for US records of Rev 1, metro and area codes complete the parse |
| City.StrLen | libgeoip/GeoIPCity.c:118-130 | the length loop stops at the first NUL |
| City.NextRecord | libgeoip/GeoIPCity.c:349-358 | 1 in memory mode; else the record at the iterator, whole if stored in at most 50 bytes, and the iterator moved by its length |
| City.ExtractFromDisk | libgeoip/GeoIPCity.c:86-98 | a stored record of at most 50 bytes is shown whole, whatever the read buffer held |
| City.ModesAgree | libgeoip/GeoIPCity.c:86-107 | disk and memory parses agree for every buffer content if and only if the record has at most 50 bytes |
| City.IterateShows | libgeoip/GeoIPCity.c:349-358 | iterating over stored records shows each in order and adds up their lengths |
| City.FirstRecords | libgeoip/GeoIPCity.c:343-358 | k calls from the start show exactly the first k records, the iterator moved by their encoded lengths |
| City.FirstRecordPlace | libgeoip/GeoIPCity.c:83-84 | iteration starts one byte behind the index |
| Names.ReadName | libgeoip/GeoIP.c:2357-2387 | none for the segment value itself; every stored name whole and converted if asked for, on disk when it has less than 300 bytes (301 in the IPv6 functions) |
| Names.NoNameThere | libgeoip/GeoIP.c:2357-2367 | no name at the segment value in any mode, nor on disk for a negative pointer |
| Names.NameModes | libgeoip/GeoIP.c:2364-2386 | memory mode returns a stored name whole, disk mode if and only if it fits the read buffer |
| DatabaseInfo.TextFound | libgeoip/GeoIP.c:2055-2074 | the second scan finds the text behind the nearest zero triple of its window, or none |
| DatabaseInfo.InfoIsBetween | libgeoip/GeoIP.c:2026-2075 | the description is what lies between the nearest zero triple and the marker, or the end |
| DatabaseInfo.InfoRoundTrip | libgeoip/GeoIP.c:2026-2075 | a NUL-free text stored before a footer is returned if and only if it is shorter than 100 bytes |
| DatabaseInfo.OldInfoRoundTrip | libgeoip/GeoIP.c:2026-2075 | likewise at the end of a file without structure information, if that has 23 bytes |
| DatabaseInfo.StaleSize | libgeoip/GeoIP.c:2015-2053 | scanning from the size before the reload reads every file right if and only if the size is unchanged or below six |
| DatabaseInfo.StaleSizeExample | libgeoip/GeoIP.c:2015-2074 | a file whose empty description a scan from any other size misses, or replaces by the marker |
| DatabaseInfo.ReadText | libgeoip/GeoIP.c:2055-2074 | the second loop computes that text |
| DatabaseInfo.GeoIPDatabaseInfo | libgeoip/GeoIP.c:2009-2075 | both loops, with the size before and after the reload check used where the code uses them |
| PreadProtocol.StepKeepsInv | libgeoip/pread.c:48-65 | every step of every thread, failing or not, keeps the lock and result invariant |
| PreadProtocol.RunKeepsHome | libgeoip/pread.c:53-65 | while no restoring seek fails, every schedule keeps the position to come back to |
| PreadProtocol.CallsAreAnswered | libgeoip/pread.c:46-94 | in any schedule each thread's requests are answered once and in order, but for one it is still busy with |
| PreadProtocol.RunKeepsClean | libgeoip/pread.c:53-59 | whatever fails for others, no call of a thread whose system calls all succeed counts as failed |
| PreadProtocol.EveryInterleaving | libgeoip/pread.c:46-94 | any threads, any schedule, any failures: a result is -1 if a system call before the restoring seek failed, else the bytes at the call's own offset; one thread inside; position restored when the lock is free and no restoring seek failed |
| PreadProtocol.NeverStuck | libgeoip/pread.c:53-65 | unless all threads are idle some thread can take a step, with no failure but that of a negative offset |
| PreadProtocol.StepsAreBounded | libgeoip/pread.c:53-65 | without new calls every schedule is finite: each step uses up remaining work |
| PreadProtocol.PreadCall | libgeoip/pread.c:72-93 | the code as written takes one of the schedules, which it returns: it ends in the state left there, restores the position unless that seek fails, returns the bytes at its offset if nothing before fails, and counts as failed exactly otherwise |

## Left out

- IPv4Lookup.SeekRecord: the precondition excludes walks that read outside the stack buffer or a cache, or that come to compare a pointer with a missing segment value, which have no defined result in C; an opened handle whose record length a reload does not change meets it (`ReadyFinds`).
- IPv6Lookup.SeekRecordV6: same precondition as the IPv4 lookup.
- RangeSearch.RangeByIp: all lookups of a search answer alike, which `QuietSearch` shows for searches in which no reload happens after the first lookup; what a search returns that mixes two different files is not stated. The address asked for must hit; otherwise the C code reads netmasks nobody wrote.
- GeoIPDatabase.CheckMtime: one atomic step with replacement by rename; `gettimeofday`, `fopen` and allocation succeed, `mmap` fails for empty files only, a `realloc` to zero bytes returns a block (where it returns NULL, reloading an empty file in memory mode keeps serving the old one from disk, and an empty index is no index cache), and the descriptor number read before the check names the reopened file.
- GeoIPDatabase.GeoIPOpen: `fopen`, `fstat` and allocation succeed, `mmap` fails for empty files only.
- Runs.EveryRunIsSafe: nothing is said of the answers from a version the library cannot open or whose index cache does not cover it, and of those with a stale pair length; `ReloadAgrees`, `IndexCacheFinds` and `StaleStride` say what happens there.
- Address.AddrToNum: the field counter is unbounded; it would overflow in C after 2^31 dots.
- Charset.Iso88591ToUtf8: the length counter is unbounded; the allocation succeeds.
- City.ExtractRecord: reading past the read buffer or the cache, which the C code does not guard against, is an outcome the precondition excludes; in memory mode nothing is said about the next record number, which no caller uses there.
- City.NextRecord: like `ExtractRecord`, excludes records that run past the read buffer.
- City.FirstRecords: records end below 2 GiB, what the `int` pointer can reach.
- Names.ReadName: the type check and the lookup before it are forwarding; a read past the buffer is excluded by the precondition.
- Caches, the open file and strings being read are values, so aliasing of the cache buffers and the `mmap`/`realloc` mechanics are not captured.
- Latitude and longitude are exact reals; rounding to `float` is not modelled. The four table strings of a country are represented by its index.
- Region editions' code arithmetic, the country, region and time zone tables: finite tables.
- Name and address wrapper functions, DNS and socket calls, file-name set-up, Windows variants and debug output: forwarding or outside calls.
- The BitTorrent client (`src`, `icons`): user interface code.
