# DNS interceptor: a verified model of `DNSProxy`

`server.php` answers DNS queries for A records from a local records file.
The file holds one `<ip address> <domain>` line per record, and the domain
may contain `*` wildcards. Any name that does not match is left
unanswered. This project models the logic of its one class, `DNSProxy`,
and proves properties of it. The model has seven modules:

- `Base`: octets, `Option`, and the octet/character correspondence. A PHP
  string is a string of octets.
- `QueryName`: the loop in `listen` that decodes the question name.
  - The model starts at offset 12 and reads length-prefixed labels. It
    stops at a zero length byte or at the end of the buffer. The labels are
    joined with dots, and trailing dots are stripped.
  - `DecodeQuery` is the loop itself. `DecodeName` is the function that
    specifies it.
- `Response`: the answer datagram built on a hit. It also holds a reader
  for the RFC 1035 message layout, used to state what the datagram means.
- `Addresses`: `IP2Bytes`, which is `explode`, then `chr` of each
  component, then `implode`.
- `Patterns`: how `loadDB` compiles a domain. `.` becomes `\.` and `*`
  becomes `.+`. This module also holds the unanchored, case-sensitive
  `preg_match` that `lookup` runs. Its parts are:
  - `Denotes` and `Occurs`, which give the meaning of a pattern;
  - `MatchPrefix` and `Search`, which compute the match;
  - proofs that the computation and the meaning agree.
- `Records`: parsing a records line. Parsing follows `trim`, then
  `preg_split('/\s+/')`, then the first two fields. The module also models
  the PHP array used as the database, which is an insertion-ordered map
  where assigning to an existing key keeps its position. On top of that it
  models the reload, which merges a file into that array, and `lookup`,
  which returns the first match.
- `Proxy`: the class `DNSProxy`, with fields `hash` and `db`.
  - `Refresh` is `loadDB`. It uses a `while` loop over the lines. `Load`
    is the body of that loop for one line, and `Assign` is the in-place
    assignment of an accepted line.
  - `Serve` is one turn of the `listen` loop on a datagram already
    received.
  - The module also has lemmas about the reply a datagram receives.

The model follows the code where the code is surprising:

- The answer's ANCOUNT is a copy of the query's QDCOUNT bytes. It is not
  the constant 1.
- Decoding never fails. A compression pointer is read as a label of
  length 192. A truncated label gives the bytes that are present.
- `*` means one or more characters other than a newline. It is not
  confined to one label.
- A reload merges the file into the existing database and never clears
  it. Entries whose lines have gone stay, and a changed line overwrites
  its entry in place.
- `rtrim` strips every trailing dot.
- The whole query tail from offset 12 is copied into the answer. That
  includes any additional records that follow the question, even though
  ARCOUNT is 0. `ExtraRecordMisread` shows that such a datagram does not
  read back as the intended response.
- A one-character address `"0"` and an empty address are falsy in PHP, so
  they count as a miss.
- `chr` keeps a component modulo 256. A component without leading digits
  gives 0. Components above 2^63 − 1 are outside the model (see
  "Left out").

## Model

| member | source | states |
|---|---|---|
| QueryName.DecodeQuery | server.php:68-94 | the decode loop yields `DecodeName(buf[12..])`: the labels read one per length byte up to a zero byte or the end of the buffer, each followed by a dot, with trailing dots stripped |
| QueryName.Substr | server.php:87 | `substr` returns `len` bytes when they are present, only the bytes up to the end of the buffer otherwise, and nothing past the end |
| QueryName.RTrimDots | server.php:94 | `rtrim($query, '.')` is a prefix of the text that does not end in a dot, and everything it removes is a dot |
| QueryName.DecodeName | server.php:71-94 | the decoded name never ends in a dot and is never longer than the question bytes it is read from |
| QueryName.DottedLength | server.php:77-91 | each label with the dot appended to it takes no more room than its length byte and bytes did, so the text built is no longer than the bytes walked |
| QueryName.LabelsEncoded | server.php:77-91 | walking length-prefixed labels followed by any bytes reads exactly those labels, then whatever the rest yields |
| QueryName.DecodeWellFormed | server.php:71-94 | a name encoded as length-prefixed labels and ended by a zero byte decodes to the labels joined by dots, whatever follows the zero |
| QueryName.EndOfBuffer | server.php:77 | the end of the buffer ends the walk just as a zero byte does |
| QueryName.Truncated | server.php:87-91 | a last label cut short by the end of the buffer contributes only the bytes that are present; decoding does not fail |
| QueryName.LabelsExtend | server.php:77-91 | bytes after a zero-terminated name do not change the labels read |
| QueryName.PointerReadAsLabel | server.php:80-90 | a compression pointer `C0 0C` is not followed: 0xC0 is read as a length and the next byte as the label |
| Response.Encode | server.php:107-111 | the answer is 12 bytes longer than the query plus the address; it starts with the query ID, repeats the query bytes from offset 12 unchanged, and ends with the address |
| Response.EncodeParses | server.php:107-110 | for a query holding exactly one question (a zero-terminated name and four bytes of type and class, nothing after it), a 4-byte answer reads back as an RFC 1035 response with the query's ID, RD and RA set, RCODE 0, the query's QDCOUNT as both QDCOUNT and ANCOUNT, no authority or additional records, the query's question bytes, and one A/IN record with TTL 60, a pointer to offset 12 and the address as its data |
| Response.QuestionEnd | server.php:108 | the question ends at the same offset in the answer as in the query |
| Response.ExtraRecordMisread | server.php:108-110 | when the query carries a record after its question (an EDNS OPT record starts with a zero byte), that record is copied where the answer should begin, so the datagram does not read back as the intended response |
| Response.EncodeNeedsFourOctets | server.php:110-111 | RDLENGTH is always 4, so an address of any other length gives a datagram whose answer does not read back |
| Response.EchoedNameDecodesAlike | server.php:108 | for a zero-terminated question, the name in the answer decodes to the name that was looked up |
| Addresses.Explode | server.php:124 | `explode(".", s)` yields at least one piece, no piece contains a dot, and joining the pieces with dots gives `s` back |
| Addresses.ExplodeImplode | server.php:124 | exploding dot-free pieces joined by dots gives the pieces back |
| Addresses.LeadingDigits | server.php:123 | the integer conversion reads the longest all-digit prefix of a component |
| Addresses.Octet | server.php:123 | a component that is empty or does not start with a digit gives the byte 0 |
| Addresses.OctetOfDecimal | server.php:123 | the decimal numeral of any byte value converts back to that byte |
| Addresses.IP2Bytes | server.php:119-125 | one octet per dot-separated component, in order, each the component's leading decimal number modulo 256 |
| Addresses.IP2BytesDottedDecimal | server.php:119-125 | the dotted-decimal text of any address converts back to that address |
| Addresses.IP2BytesLoopback | server.php:119-125 | `127.0.0.1` gives the octets 127, 0, 0, 1 |
| Addresses.IP2BytesWraps | server.php:123 | components above 255 wrap: `256.300` gives 0, 44 |
| Patterns.Compile | server.php:150 | the pattern has one token per character of the domain: `*` becomes the token for one or more characters, every other character (the dot included) a literal |
| Patterns.CompileInjective | server.php:150 | distinct domains compile to distinct patterns, so they are distinct keys of the database |
| Patterns.PlusThen | server.php:150 | a `.+` that has taken `k` characters succeeds only when at least one character is left for each remaining token |
| Patterns.MatchPrefix | server.php:163 | a prefix match succeeds only on a text at least as long as the pattern |
| Patterns.Search | server.php:163 | the empty pattern matches any name, and a match needs a name at least as long as the pattern |
| Patterns.PlusThenSpec | server.php:150 | the backtracking over the length of `.+` succeeds exactly when some run of one or more non-newline characters is followed by a prefix the rest of the pattern matches |
| Patterns.MatchPrefixSpec | server.php:163 | the computed prefix match succeeds exactly when the pattern denotes some prefix of the text |
| Patterns.SearchSpec | server.php:163 | the computed unanchored search succeeds exactly when the pattern denotes some substring of the name |
| Patterns.DenotesLength | server.php:150 | every character of a pattern consumes at least one character, so a match is at least as long as the pattern |
| Patterns.TooShortNeverMatches | server.php:163 | a name shorter than the domain pattern never matches it |
| Patterns.LiteralDenotes | server.php:150 | a star-free pattern matches exactly its own text, so `.` matches only a dot |
| Patterns.LiteralOccurs | server.php:163 | a star-free pattern matches a name exactly when its text appears somewhere in the name |
| Patterns.StarThenLiteral | server.php:150 | `*` followed by star-free text matches a whole word exactly when the word ends in that text after one or more non-newline characters |
| Patterns.StarMatchesAnyPrefix | server.php:150 | a leading-star pattern matches any non-empty, newline-free prefix followed by the rest of the pattern |
| Patterns.WildcardMatchesSub | server.php:150 | `*.domain.local` matches `sub.domain.local` |
| Patterns.WildcardMatchesDeeper | server.php:150 | `*.domain.local` matches `a.b.domain.local`: a star spans dots |
| Patterns.WildcardNeedsPrefix | server.php:150 | `*.domain.local` does not match `domain.local`: a star needs at least one character |
| Patterns.UnanchoredExample | server.php:163 | the match is not anchored: `a.local` matches `xa.localy` |
| Records.Trim | server.php:143 | `trim` yields a text no longer than its input that neither starts nor ends with a trimmed character |
| Records.TrimLeft | server.php:143 | `trim` removes exactly the leading run of trimmed characters (space, tab, newline, CR, NUL, VT) |
| Records.TrimRight | server.php:143 | `trim` removes exactly the trailing run of trimmed characters |
| Records.Split | server.php:143 | `preg_split('/\s+/')` yields at least one field, and no field contains whitespace |
| Records.SplitJoin | server.php:143 | the split loses nothing and cuts only at maximal whitespace runs: the fields with non-empty whitespace runs between them give the text back, and every field but the first and last is non-empty |
| Records.SplitCount | server.php:143 | a text splits into two or more fields exactly when it contains whitespace |
| Records.ParseLine | server.php:143-148 | the address and domain a line yields contain no whitespace |
| Records.SkippedLines | server.php:143-144 | a line is skipped exactly when its trimmed text contains no whitespace |
| Records.ParseTwoFields | server.php:143-148 | the line `<address> <domain>` yields exactly that address and domain |
| Records.ParseIgnoresExtraFields | server.php:143-148 | whatever follows the second field after whitespace is ignored: further fields and trailing whitespace alike |
| Records.Put | server.php:152 | assigning `$db[key]` keeps the key order and appends an absent key at the end; afterwards the key reads the new address and every other key reads what it did before |
| Records.PutUnique | server.php:152 | assigning into the array keeps its keys distinct |
| Records.Apply | server.php:141-153 | one line leaves the number of entries as it was or adds one; that it removes none is stated by `ApplyKeys` |
| Records.ApplyUnique | server.php:141-153 | one line keeps the keys distinct |
| Records.ApplyKeys | server.php:141-153 | one line keeps all existing keys in their positions and adds at most its own key |
| Records.Merge | server.php:141-153 | a reload never shrinks the database and adds at most one entry per line; that the old entries stay in place is stated by `MergeKeys` and `MergeOrder` |
| Records.ValidCountKeys | server.php:141-147 | the reported count is the number of lines that define a key, repeats included, and it is zero exactly when every line is skipped |
| Records.LineKeys | server.php:143-150 | a key is among the keys the lines define exactly when some line defines it |
| Records.Fresh | server.php:152 | the fresh keys are exactly the given keys that are not already known |
| Records.MergeOrder | server.php:141-153 | after a reload the keys are the old keys in their places, followed by the keys the lines define that were not present yet, each once, in the order of the line that first defines it |
| Records.MergeKeys | server.php:141-153 | a reload only adds: the old keys keep their positions; afterwards the keys are the old ones plus those the lines define; keys stay unique |
| Records.MergeFind | server.php:141-153 | after a reload, each key holds the address of the last line that defines it, and keys no line defines keep their old address |
| Records.DuplicateKeepsFirstPosition | server.php:152 | the lines `a1 x`, `a2 y`, `a3 x` load as two entries: `x` first with the address of its second line, then `y` |
| Records.MergeAgainKeys | server.php:141-153 | a second reload of the same lines adds no key |
| Records.MergeIdempotent | server.php:128-157 | reloading the same lines again leaves the database as it is |
| Records.Lookup | server.php:160-167 | `lookup` returns nothing exactly when no pattern matches; otherwise it returns the address of the first matching entry in insertion order |
| Records.LookupFirstHit | server.php:160-167 | the first matching entry is the one whose address `lookup` returns |
| Records.LookupMeaning | server.php:160-167 | lookup stated through pattern meaning: a miss exactly when no pattern occurs in the name; a hit is the address of the first entry whose pattern occurs |
| Proxy.Truthy | server.php:102 | the empty address is falsy, any address of two or more bytes is truthy, and a one-byte address is falsy exactly when it is the character `0` |
| Proxy.Reply | server.php:102-111 | nothing is sent exactly when the lookup misses or returns a falsy address; a reply is longer than the query, starts with its ID and repeats its bytes from offset 12 |
| Proxy.DNSProxy.constructor | server.php:41-48 | a new proxy holds the file content as its hash and the file merged into an empty database, or nothing when there is no file |
| Proxy.DNSProxy.Refresh | server.php:128-157 | with the file missing or unchanged, nothing changes; otherwise the hash becomes the file content, the lines are merged into the database in order, and the count of lines with two or more fields is reported; keys stay unique; so a second refresh with the same content changes nothing |
| Proxy.DNSProxy.Load | server.php:143-152 | one pass of the loop: the database becomes what the line does to it, keys stay unique, and the line is counted exactly when it has two or more fields |
| Proxy.DNSProxy.Assign | server.php:152 | the in-place assignment of the compiled domain keeps the keys unique and leaves the hash alone |
| Proxy.DNSProxy.Serve | server.php:62-114 | one turn reloads as `Refresh` does, then replies exactly what `Reply` says for the reloaded database: the encoded answer on a truthy hit, nothing otherwise |
| Proxy.ReplyMeaning | server.php:102-111 | when some pattern occurs in the decoded name, the first such entry decides: its address is answered if truthy, otherwise nothing is sent |
| Proxy.NoMatchNoReply | server.php:102-114 | a name in which no pattern occurs gets no answer |
| Proxy.SingleLineDb | server.php:141-153 | a file of one line `<address> <name>` loads as one entry holding the compiled name and the address bytes |
| Proxy.LookupOwnName | server.php:160-167 | a star-free pattern finds its own text |
| Proxy.LineThenQueryHits | server.php:71-111 | after loading the line `<a.b.c.d> <name>`, a query for exactly that name is answered with the response that carries the four address octets |

## Left out

- Sockets are not modelled (server.php:53-62, 112): `socket_create`, `socket_bind`, `socket_recvfrom`, `socket_sendto` and the `@` error suppression. `Serve` takes the received datagram and returns the datagram to send.
- The endless `while(true)` loop (server.php:59) is modelled as one turn, `Serve`.
- `set_time_limit` (server.php:44), the configuration fields (server.php:24-33) and the top-level script (server.php:180-182) are runtime plumbing.
- `debug()` and its `echo` output (server.php:99, 104, 114, 134, 154, 170-177) are logging only. The count of valid lines is returned by `Refresh` instead of printed.
- `file_exists`, `md5_file` and `file()` (server.php:130-137) are foreign calls. The file is a parameter of type `Option<seq<string>>`: None when it does not exist, otherwise its lines with the empty lines already dropped. The stored hash is the file content itself, so MD5 collisions are not modelled. Nor is PHP's loose `!=` on the two hash strings: two different MD5 values of the form `0e` followed by digits compare equal as numbers, so such a change of the file is not reloaded by the source, while the model reloads it.
- The dead `$i += 2` (server.php:97) has no effect and is not modelled.
- Datagrams shorter than 12 bytes are excluded by a precondition.
- PCRE metacharacters other than `.` and `*` in a domain (`? + [ ] ( ) { } | ^ $ \ /`) are treated as literal characters. The source passes them to PCRE unescaped, which would need a regex engine. With them excluded, `str_replace` is injective, which `CompileInjective` relies on.
- Patterns.Search: a NUL character inside a domain (`trim` removes it only at the ends, and `\s` does not split at it) is matched as a literal character. Before PHP 8.2, `preg_match` refuses a pattern holding a NUL byte with a warning and returns false, so `lookup` passes over such an entry where the model can find a hit.
- PHP's integer conversion of a component is modelled as its leading decimal digits. Leading whitespace, signs and other numeric forms are not modelled. The model follows the lenient conversion of PHP 5.6 and 7, where a component without leading digits gives 0; PHP 8 instead rejects such an argument to `chr` with a `TypeError`, which is not modelled.
- Addresses.Octet: components whose value exceeds 2^63 − 1 are not modelled. The model keeps the exact decimal value modulo 256 at any length, while PHP reads such a component as a float, which the lenient `chr` of PHP 7 turns into 0.
- Query bytes are compared with the characters of the records file by character code. No case folding or encoding is modelled, just as `preg_match` has none without flags.
