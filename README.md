# mysql-udf-ipv6 address codec in Dafny

This project models the two MySQL user-defined functions of
`mysql_udf_ipv6.c`, together with the address grammars they hand their
work to:

- `INET6_PTON(text)` turns IPv4 or IPv6 presentation text into a 4- or
  16-byte binary string.
- `INET6_NTOP(binary)` turns a 4- or 16-byte binary string back into
  presentation text.

A SQL value is an `Option`, and `None` is SQL NULL. `None` as an argument
stands for a NULL argument, and `None` as a result stands for the function
setting `*null_value`.

Modules:

- `Common`: the byte and word types, plus splitting and joining text on a
  separator.
- `Numerals`: decimal octets and hexadecimal groups.
- `Ipv4Text`: the dotted-decimal grammar, with `Parse4` and `Format4`.
- `Ipv6Text`: the IPv6 grammar (`Parse6`, following section 2.2 of
  RFC 4291) and the IPv6 formatter (`Format6`, following section 4 of
  RFC 5952, with the mixed form of section 5 of RFC 5952).
- `Udf`: the two UDFs.
  - `Pton` and `Ntop` are functions that say what each UDF returns.
  - `InetPton` is a method that follows the C body over arrays. It copies
    the argument into a 47-character working buffer, NUL-terminates it,
    searches it for '.', and fills the caller's `result` buffer. It is
    proved to compute exactly `Pton`.
  - `InetNtop` is a method that follows the C body over arrays. It writes
    the text and a NUL into the caller's `result` buffer and takes
    `strlen`. It is proved to compute exactly `Ntop`.
- `Samples`: the examples from the functions' own documentation, and an
  IPv4-mapped address, proved end to end.

Family detection follows the code. `inet6_pton` treats text as IPv4 when
it contains a '.' anywhere (`strpbrk(temp, ".")`), and as IPv6 otherwise.
A colon rule (a ':' means IPv6) would send IPv6 text with a dotted tail to
the IPv6 parser. The model follows the code's dot rule.

`inet6_pton` keeps the argument length in a 32-bit `uint length`
(mysql_udf_ipv6.c:88), assigned from the `unsigned long`
`args->lengths[0]`. The model takes the length modulo 2^32 (`Udf.Uint32`).
An argument of exactly 2^32 bytes is therefore NULL, and one of 2^32 + 5
bytes is read as its first 5 bytes. MySQL's `max_allowed_packet` (at most
1 GB) keeps such arguments from reaching the function in practice.

Under the dot rule, the text `inet_ntop` writes for IPv4-mapped and
IPv4-compatible addresses (`::ffff:1.2.3.4`, `::1.2.3.4`) goes to the IPv4
parser and is refused. `Udf.RoundTripIpv6` proves that
`INET6_PTON(INET6_NTOP(b))` gives `b` back exactly when `b` is neither kind
of address.

The grammars follow the `inet_pton` and `inet_ntop` of current glibc,
which derive from BIND's:

- IPv4 text has exactly four decimal fields, each 0..255, with no leading
  zero.
- An IPv6 group has 1 to 4 hexadecimal digits, in either case, as the
  `inet_pton` of current glibc requires. Older BIND-derived versions
  checked only that a group's value fits 16 bits, and so also accepted
  longer groups with leading zeros such as `00001::`; the model does not.
- At most one "::" may appear, and it must stand for at least one zero
  group.
- A dotted-decimal IPv4 tail is allowed only as the last field.
- The IPv6 formatter writes lower case without leading zeros. It writes
  the longest run of two or more zero groups as "::", taking the first
  run on ties.
- The formatter writes a dotted-decimal tail when the zero run starts
  the address and spans six groups, or spans five groups followed by
  `ffff`.

## Model

| member | source | states |
|---|---|---|
| Udf.Pton | mysql_udf_ipv6.c:83-118 | A NULL argument, or one whose length is 0 modulo 2^32, gives NULL. Any other result has 4 bytes when the truncated text contains '.' and 16 bytes otherwise. |
| Udf.InetPton | mysql_udf_ipv6.c:83-118 | The C body over arrays returns NULL exactly when `Pton` does. Otherwise it writes `Pton`'s bytes at the start of `result` and reports their number as the length. The rest of `result` is unchanged, and all of it is unchanged on NULL. |
| Udf.CopyTruncated | mysql_udf_ipv6.c:91-100 | Given the 32-bit length, the fresh 47-character working buffer holds a NUL, and its C string is the first min(length, INET6_ADDRSTRLEN) argument bytes up to the first NUL. |
| Udf.WriteBytes | mysql_udf_ipv6.c:112 | On success the parsed bytes are written at the start of `result`, and the rest of `result` is unchanged. |
| Udf.WorkingText | mysql_udf_ipv6.c:96-100 | The text handed to the parser is a prefix of the argument with no NUL, of at most INET6_ADDRSTRLEN characters and at most the 32-bit length. When it stops before both bounds, it stops at a NUL of the argument. |
| Udf.TextFamily | mysql_udf_ipv6.c:103-109 | IPv4 exactly when the text contains '.'. Text sent to the IPv6 side is never dotted-decimal. |
| Udf.LengthFamily | mysql_udf_ipv6.c:157-167 | IPv4 exactly for length 4, IPv6 exactly for length 16, and no family for any other length. |
| Udf.PtonReadsBoundedPrefix | mysql_udf_ipv6.c:96-100 | When the 32-bit length exceeds INET6_ADDRSTRLEN, only the first INET6_ADDRSTRLEN argument bytes affect the result. |
| Udf.Uint32 | mysql_udf_ipv6.c:88-91 | The stored length is below 2^32, is no larger than the argument length, equals it for arguments shorter than 2^32, and differs from it by a multiple of 2^32. |
| Udf.PtonLengthWraps | mysql_udf_ipv6.c:88-99 | For arguments of 2^32 bytes or more, a length that is 0 modulo 2^32 gives NULL, and otherwise the result is that of the first (length mod 2^32) bytes. |
| Udf.WorkingTextOfShortText | mysql_udf_ipv6.c:96-100 | Truncation and NUL termination leave unchanged any text of at most INET6_ADDRSTRLEN characters without a NUL. |
| Udf.Strpbrk | mysql_udf_ipv6.c:103 | Returns the index of the first '.' in the C string of the buffer, or NULL exactly when the C string has no '.'. |
| Udf.CStringLength | mysql_udf_ipv6.c:175 | `strlen`: the index of the first NUL in the buffer. |
| Udf.PtonRejectsDottedIpv6 | mysql_udf_ipv6.c:103-115 | Text containing both ':' and '.' (IPv6 with a dotted tail) always gives NULL, because the '.' selects the IPv4 grammar. |
| Udf.NtopPtonIpv4 | mysql_udf_ipv6.c:103-117 | Whenever INET6_PTON accepts text as IPv4, INET6_NTOP of the result is that same text. |
| Udf.Ntop | mysql_udf_ipv6.c:146-177 | NULL exactly when the argument is NULL or its length is neither 4 nor 16. Otherwise the text is shorter than INET6_ADDRSTRLEN and holds no NUL. |
| Udf.Presentation | mysql_udf_ipv6.c:170 | The address text fits the `INET6_ADDRSTRLEN + 1` buffer with its NUL, and the family's grammar parses it back to the address. |
| Udf.WriteCString | mysql_udf_ipv6.c:170 | After the write, the buffer holds the text and then a NUL, its `strlen` is the text's length, and the rest of the buffer is unchanged. |
| Udf.InetNtop | mysql_udf_ipv6.c:146-177 | The C body over arrays returns NULL exactly when `Ntop` does. Otherwise `result` holds `Ntop`'s text and a NUL, the reported length is `strlen(result)` (less than INET6_ADDRSTRLEN), and the rest of `result` is unchanged. |
| Udf.RoundTripIpv4 | mysql_udf_ipv6.c:125 | INET6_PTON(INET6_NTOP(b)) == b for every 4-byte b. |
| Udf.RoundTripIpv6 | mysql_udf_ipv6.c:125 | For a 16-byte b, INET6_PTON(INET6_NTOP(b)) == b when b is neither IPv4-mapped nor IPv4-compatible, and NULL when it is. |
| Samples.DocExampleIpv4 | mysql_udf_ipv6.c:62 | INET6_PTON('1.2.3.4') is the bytes 1,2,3,4, and INET6_NTOP of those bytes is '1.2.3.4'. |
| Samples.DocExampleIpv6 | mysql_udf_ipv6.c:125 | INET6_PTON('fe80::219:e3ff:1:9317') is the 16 bytes fe80 0000 0000 0000 0219 e3ff 0001 9317, and INET6_NTOP of those bytes gives the same text. |
| Samples.MappedSample | mysql_udf_ipv6.c:103-115 | INET6_NTOP of the IPv4-mapped address of 1.2.3.4 is '::ffff:1.2.3.4'. The IPv6 grammar accepts that text, but INET6_PTON returns NULL for it. |
| Ipv4Text.Parse4 | mysql_udf_ipv6.c:112 | A successful dotted-decimal parse yields 4 bytes. |
| Ipv4Text.Format4 | mysql_udf_ipv6.c:170 | Dotted-decimal text has 7 to 15 characters, contains '.', and holds no ':' and no NUL. `Parse4Format4` and `Parse4Iff` state that it inverts `Parse4` and is canonical. |
| Ipv4Text.Parse4Format4 | mysql_udf_ipv6.c:170 | Parsing the dotted-decimal text written for any 4 bytes gives them back. |
| Ipv4Text.Parse4Canonical | mysql_udf_ipv6.c:112 | The only text accepted as address q is the text written for q. |
| Ipv4Text.Parse4Iff | mysql_udf_ipv6.c:112 | Text is accepted as q if and only if it is the text written for q. |
| Ipv4Text.Parse4RejectsColon | mysql_udf_ipv6.c:112 | No text containing ':' is accepted as dotted-decimal. |
| Ipv4Text.Parse4RejectsDotless | mysql_udf_ipv6.c:112 | No text without '.' is accepted as dotted-decimal. |
| Ipv6Text.Parse6 | mysql_udf_ipv6.c:112 | A successful IPv6 parse yields 16 bytes. |
| Ipv6Text.Format6 | mysql_udf_ipv6.c:170 | IPv6 text has a ':', no NUL and at most 39 characters. It contains a '.' exactly when the dotted-tail form is used. `Parse6Format6`, `MixedFormIff`, `MappedText` and `LongestZeroRun` state its other properties. |
| Ipv6Text.Parse6Format6 | mysql_udf_ipv6.c:170 | Parsing the IPv6 text written for any 16 bytes gives them back, in the compressed, uncompressed and dotted-tail forms alike. |
| Ipv6Text.MappedText | mysql_udf_ipv6.c:170 | An IPv4-mapped address is written "::ffff:" followed by its IPv4 address in dotted-decimal. |
| Ipv6Text.Parse6SingleElision | mysql_udf_ipv6.c:112 | Accepted IPv6 text contains "::" at most once, and never ":::". |
| Ipv6Text.ParseGroupsNonEmpty | mysql_udf_ipv6.c:112 | Every ':'-separated field of accepted IPv6 text is non-empty. |
| Ipv6Text.PartProper | mysql_udf_ipv6.c:112 | An accepted side of "::" neither starts nor ends with ':' and holds no second "::". |
| Ipv6Text.LongestZeroRun | mysql_udf_ipv6.c:170 | The run of zero groups chosen for "::" is a longest one, and no earlier run is as long. |
| Ipv6Text.ZeroRunAt | mysql_udf_ipv6.c:170 | Counts exactly the consecutive zero groups at a position. |
| Ipv6Text.MixedFormIff | mysql_udf_ipv6.c:170 | The dotted tail is written exactly for IPv4-mapped and IPv4-compatible addresses. |
| Ipv6Text.WordBytesWords | mysql_udf_ipv6.c:170 | Reading 16 bytes as eight network-order groups loses nothing. |
| Numerals.Dec | mysql_udf_ipv6.c:170 | A decimal numeral is all digits with the value n, and starts with '0' only for 0. |
| Numerals.DecCanonical | mysql_udf_ipv6.c:112 | A digit string without a leading zero is the numeral of its value. |
| Numerals.ParseOctet | mysql_udf_ipv6.c:112 | An accepted IPv4 field is exactly the numeral of its value. |
| Numerals.ParseOctetDec | mysql_udf_ipv6.c:112 | The numeral of every byte is accepted as that byte. |
| Numerals.Hex | mysql_udf_ipv6.c:170 | A hexadecimal numeral is lower case with the value n, and has at most 4 digits for a 16-bit group. `HexLeadingDigit` states that it has no leading zero. |
| Numerals.HexLeadingDigit | mysql_udf_ipv6.c:170 | A group's numeral starts with '0' exactly when the group is 0, so groups are written without leading zeros. |
| Numerals.ParseGroup | mysql_udf_ipv6.c:112 | An accepted IPv6 group has 1 to 4 hexadecimal digits and their value. |
| Numerals.ParseGroupHex | mysql_udf_ipv6.c:112 | The numeral of every group is accepted as that group. |

## Left out

- `inet6_gethostbyname` (mysql_udf_ipv6.c:206-246) is a DNS lookup through `gethostbyname2_r`. It is network I/O with an outcome the model cannot state, so it is not modelled.
- The `*_init` and `*_deinit` functions (mysql_udf_ipv6.c:67-81, 130-144, 190-204) are not modelled. They only register the UDFs with MySQL and check the argument count and type.
- mysql_udf_idna.c is not part of this model. It wraps libidn and iconv, whose Unicode tables lie outside the repository.
- The subnet, mask and lookup functions listed at mysql_udf_ipv6.c:248-258 do not exist in the code, so there is nothing to model.
- Memory management and the caller's buffer sizes are left out. `result` is taken to be at least 16 bytes for INET6_PTON and at least 47 characters for INET6_NTOP.
- Udf.InetNtop: the branch where `inet_ntop` fails (mysql_udf_ipv6.c:170-173) is not modelled as a separate path. `Udf.Presentation` proves that the text always fits the buffer, so that branch cannot occur for lengths 4 and 16.
- Udf.InetPton: the argument and the working buffer are sequences of `char`, one per byte. Bytes and characters are not told apart, and there is no character encoding.
- Ipv6Text.Parse6: accepted IPv6 text is not canonical. Upper-case digits and leading zeros are accepted, as `inet_pton` accepts them, so no lemma states that `Format6` inverts `Parse6`.
