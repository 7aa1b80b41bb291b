# CIDR address calculator, modelled in Dafny

The program reads one IPv4 block in CIDR notation (section 3.1 of RFC 4632),
for example `192.168.1.0/24`, and reports:

- the address and the netmask;
- the network and broadcast addresses;
- the first and last host, and the number of hosts;
- the reverse-lookup name (section 3.5 of RFC 1035);
- each address in dotted decimal and dotted binary.

All of its logic is in the `CIDR` value: an address and a netmask, two
unsigned 32-bit words. This project models that value and every operation
on it.

- `wrappers.dfy`: `Option` and `Result`.
- `bits.dfy` (`Bits`): shifts counted one bit at a time, trailing zero
  bits, and the cast from a number to a 32-bit word.
- `numerals.dfy` (`Numerals`): the numerals the program reads and writes.
  - Decimal numerals, as read by `parse::<u32>` and written by `{}`.
  - Eight-digit lower-case hexadecimal, as written by `{:08x}`.
  - Eight-digit binary, as written by `{:08b}`.
  - The value each numeral reads back to.
- `grammar.dfy` (`Grammar`): the anchored pattern of the parser, written as
  a scanner over characters.
  - The pattern is digit groups of bounded width joined by fixed separators.
  - The scanner finds a decomposition exactly when one exists, and it is
    the only one.
- `ipv4.dfy` (`Ipv4`): the `Cidr` datatype (`address`, `netmask`:
  `bv32`) and the source's operations.
  - Parsing: `FromString` with its loop over the captures, the function
    `Parse` it is proved against, and `FromOctets`.
  - Derived addresses: `Network`, `Netmask`, `Broadcast`, `HostMin`,
    `HostMax` and `NumHosts`.
  - Renderings: `ToOctets`, `ToString`, `ToStringIp`, `ToStringIpSubnet`,
    `ToStringCidr` (a method with the trailing-zero loop), `ToStringHex`,
    `ToStringBinary` and `ReverseDns`.
- `masks.dfy` (`Masks`): the netmask of a prefix length, bit by bit, and
  the prefix length read back off it.
- `blocks.dfy` (`Blocks`): the block arithmetic.
  - Octet packing, and the network and broadcast bits.
  - The host range and the host count, modulo 2^32.
- `renderings.dfy` (`Renderings`): what each text form says.
  - Dotted decimal, and address/mask, read back to the octets.
  - The reverse-lookup name is the dotted form of the byte-swapped address.
  - The hexadecimal and binary forms have fixed widths and read back to the
    address.
- `parsing.dfy` (`Parsing`): which texts are accepted and what they
  yield, and the round trip from printing in CIDR notation back through
  the parser.
- `scenarios.dfy` (`Scenarios`): the report for `192.168.1.0/24` worked
  out in full.

The words are `bv32`, so `+`, `-`, `<<`, `!`, `&` and `|` wrap around or
truncate as the `u32` operations of a release build do, with one
exception: a shift by the full width of 32 gives 0 in Dafny, where a
release build reduces the count to 0 and leaves the word unchanged. The
only such shift is the mask at prefix 0 (see Findings). In Rust, `>>`
binds tighter than `&`, so `ip >> 24 & 0xff` is `(ip >> 24) & 0xff`.

At /32 the host count is `0xffffffff`, not 0: `num_hosts` computes
`(a - 1) - (a + 1) + 1`, which wraps around in 32-bit arithmetic. `Blocks.NumHostsWrapped` states
the /31, /32 and /0 values.

## Model

| member | source | states |
|---|---|---|
| Ipv4.Cidr.FromString | src/main.rs:31-49 | The result is exactly `Parse(s)`: `Err("invalid cidr")` when the text does not match the pattern, otherwise what the capture loop returns. |
| Ipv4.Cidr.ReadCaptures | src/main.rs:36-48 | The loop reads the five captured numbers in order and returns `Err("invalid cidr")` at the first one above its entry in the limits table. Once all five pass, it returns `Ok` of the value built from them. The invariant is that the pushed numbers are the captured values, each within its limit. |
| Parsing.ParseOk | src/main.rs:31-49 | A text is accepted if and only if it is four 1-3 digit numerals joined by dots, then `/` and a 1-2 digit numeral, the whole text with nothing around it, with every octet ≤ 255 and the prefix ≤ 32. Leading zeros are allowed. Every failure is the error "invalid cidr". |
| Parsing.ParseSpelled | src/main.rs:38-48 | For a text of the pattern with groups `g`: in range it yields the address packed from the four octets, most significant first, and the mask of the prefix length. Out of range it yields `Err("invalid cidr")`. |
| Parsing.ParseUnspelled | src/main.rs:34 | A text that no grouping spells in the pattern is rejected with "invalid cidr". |
| Parsing.ParseCidrString | src/main.rs:104-114 | For a mask of any prefix length, the text `dotted(address) + "/" + prefix` parses back to the same address and mask. For prefixes 1 to 32 this is the text `to_string_cidr` prints. At /0 it holds only for the text itself, since the printer's loop never ends on the zero mask. |
| Parsing.ParsePrintParse | src/main.rs:31-56 | For every value the parser yields, its CIDR notation `dotted(address) + "/" + prefix` parses back to that value. For prefixes 1 to 32 that notation is what `to_string_cidr` prints. A value parsed from `…/0` has the zero mask, which `to_string_cidr` cannot print. |
| Grammar.Scan | src/main.rs:32 | The anchored match: any groups found have 1 to width digits each and, joined by the separators, are the whole text. |
| Grammar.ScanComplete | src/main.rs:32 | Any decomposition of a text into digit groups of the allowed widths, joined by non-digit separators, is the one the scanner returns. So a match is found whenever one exists, and it is unique. |
| Numerals.ValueBound | src/main.rs:41 | A numeral of at most three digits is below 1000, so `parse::<u32>` of a captured group cannot overflow. |
| Numerals.Dec | src/main.rs:91 | The `{}` numeral of n is one or more ASCII digits without a leading zero, and it reads back to n. |
| Numerals.DecLength | src/main.rs:91 | Numbers below 10, 100 and 1000 print in at most one, two and three digits. |
| Blocks.FromOctetsToOctets | src/main.rs:51-56 | For octets ≤ 255, `to_octets(from_octets(a0, a1, a2, a3, p))` is `[a0, a1, a2, a3]`. |
| Blocks.OctetsOfPack | src/main.rs:53 | Packing four octets ≤ 255 most significant first and splitting the word again gives the octets back. |
| Blocks.PackOctets | src/main.rs:128-130 | Splitting a word into its octets and packing them again gives the word back. |
| Blocks.OctetsBounded | src/main.rs:128-130 | Every element of `to_octets` is ≤ 255. |
| Masks.MaskBit | src/main.rs:54 | The mask of prefix p is p one bits followed by 32 - p zero bits: bit j is set if and only if j ≥ 32 - p. |
| Masks.MaskLowZeros | src/main.rs:54 | For 1 ≤ p ≤ 32, the mask has exactly 32 - p trailing zero bits. |
| Masks.PrefixOfMask | src/main.rs:54 | The prefix length read off the mask of p, as 32 minus its trailing zeros, is p. |
| Masks.MaskInjective | src/main.rs:54 | Two prefix lengths give the same mask if and only if they are equal. |
| Masks.MaskEnds | src/main.rs:54 | /32 gives `0xffffffff`, /24 gives `0xffffff00`, and /0 gives the zero mask. |
| Masks.MaskAsWrittenAtZero | src/main.rs:54 | As a release build evaluates it, /0 gives `0xffffffff`, the same as /32, so the block reads back as /32. |
| Masks.MaskAsWrittenElsewhere | src/main.rs:54 | For 1 ≤ p ≤ 32 the mask as written equals the intended mask. |
| Masks.NetmaskPrefix | src/main.rs:62-64 | The netmask shown as an address has the prefix length the mask was built from. |
| Blocks.NetworkBits | src/main.rs:58-60 | The network address agrees with the address on the masked bits and is zero on the host bits. |
| Blocks.BroadcastBits | src/main.rs:66-68 | The broadcast address agrees with the address on the masked bits and is one on the host bits. |
| Blocks.AddressWithinBlock | src/main.rs:58-68 | network ≤ address ≤ broadcast, as unsigned values. |
| Blocks.BlockMember | src/main.rs:58-68 | Every word that agrees with the address on the masked bits lies between network and broadcast. |
| Blocks.SingleAddress | src/main.rs:58-68 | At /32, network, address and broadcast are equal. |
| Blocks.HostEndsOfBlock | src/main.rs:70-76 | `host_min` is network + 1 and `host_max` is broadcast - 1, modulo 2^32. |
| Blocks.HostRange | src/main.rs:70-76 | For prefixes up to /30, network < host_min ≤ host_max < broadcast: neither end wraps around. |
| Blocks.NumHostsOfMask | src/main.rs:78-83 | For every address and mask the host count is `!netmask - 1`, modulo 2^32: the number of host-bit patterns less two. |
| Blocks.NumHostsOfPrefix | src/main.rs:78-83 | For the mask of p the host count is 2^(32-p) - 2 modulo 2^32. It depends only on the prefix. |
| Blocks.NumHostsExamples | src/main.rs:78-83 | /24 has 254 hosts, /8 has 16777214, /30 has 2. |
| Blocks.NumHostsWrapped | src/main.rs:78-83 | /31 has 0 hosts, /32 has 4294967295, and the zero mask has 4294967294: the count wraps around. |
| Ipv4.Cidr.ToStringCidr | src/main.rs:104-114 | For a nonzero mask the loop terminates after at most 32 steps. The count it reaches is 32 minus the trailing zero bits, between 1 and 32, and the text is `dotted(address) + "/" + count`. |
| Renderings.DottedReadBack | src/main.rs:86-92 | The dotted form reads back, with the dotted-quad pattern, to four fields whose values are the octets of the word, most significant first. |
| Renderings.DottedInjective | src/main.rs:94-96 | Distinct addresses have distinct dotted forms. |
| Renderings.SubnetReadBack | src/main.rs:99-101 | The address/mask form reads back, with the pattern of two dotted quads separated by `/`, to the fields of the address followed by those of the mask. |
| Renderings.ReverseDnsName | src/main.rs:132-135 | The reverse-lookup name is the dotted form of the address with its octets reversed, followed by `.in-addr.arpa`. |
| Renderings.ByteSwapInvolution | src/main.rs:134 | Reversing the octets twice gives the address back, so the reverse name determines the address. |
| Renderings.HexForm | src/main.rs:117-119 | The hexadecimal form is exactly eight lower-case hexadecimal digits, and they read back to the address. |
| Renderings.OctetBits | src/main.rs:123 | An octet written in eight binary digits reads back to the octet. |
| Renderings.BinaryForm | src/main.rs:121-125 | The binary form is 35 characters, with dots at positions 8, 17 and 26 and binary digits everywhere else. The four groups, read as bits and packed most significant first, are the address. |
| Scenarios.Block24 | src/main.rs:58-96 | For 192.168.1.0/24: netmask 255.255.255.0, network 192.168.1.0, hosts 192.168.1.1 to 192.168.1.254, broadcast 192.168.1.255, 254 hosts, and reverse name 0.1.168.192.in-addr.arpa. |

## Left out

- `main` and `process` (src/main.rs:138-160) are not modelled. They read the argument vector, print a usage message and print the report, which is process I/O.
- The regular-expression engine is replaced by a hand-written scanner over ASCII digits. In the regex crate `\d` also matches non-ASCII decimal digits, and `parse().unwrap()` at src/main.rs:41 would then panic. That panic is not modelled.
- Debug builds panic on overflow at src/main.rs:54, 71, 75 and 82. The model follows a release build, where these operations wrap around. The exception is the shift by 32 at src/main.rs:54 for prefix 0, where the model uses the zero mask instead of the release build's all-ones mask (see Findings).
- Ipv4.Cidr.ToStringCidr: requires a nonzero mask, because the loop at src/main.rs:108 never ends on a zero mask.
- Ipv4.Cidr.FromOctets: at prefix 0, builds the zero mask rather than the all-ones mask a release build computes (see Findings).
  - `Ipv4.MaskAsWritten` keeps the expression as written.
  - `Masks.MaskAsWrittenElsewhere` shows that it only differs at prefix 0.
- Blocks.BlockMember: proves only one direction. Words that agree with the address on the masked bits lie between network and broadcast. That every word in that range agrees on the masked bits is not stated.
- Blocks.HostRange: covers prefixes up to /30 only. At /31 the host ends cross inside the block: `host_min` is the broadcast address and `host_max` is the network address. At /32 they wrap around to address + 1 and address - 1. `Blocks.NumHostsWrapped` gives the host counts for both.
- Parsing.ParsePrintParse: the round trip through the program's printer holds for prefixes 1 to 32 only. A value parsed from a `/0` text has the zero mask, on which `to_string_cidr` never returns (`Ipv4.Cidr.ToStringCidr` requires a nonzero mask). So at /0 only the notation `CidrString` round-trips.
- Ipv4.Cidr.ReadCaptures: models the loop of src/main.rs:40-46 as a separate method that receives the captured groups. The vector `e` is a sequence of unbounded naturals, which cannot overflow because every group has at most three digits (`Numerals.ValueBound`).
- `ToStringCidr` is not related to `Parse` for masks that are not a run of ones followed by zeros. The parser never builds such masks, and for them the count is still 32 minus the trailing zeros.

## Findings

| source | as written | input that shows it | evidently intended | confidence | as-written member | corrected member |
|---|---|---|---|---|---|---|
| src/main.rs:54 | The mask is `0xffffffff << (32 - netmask)`. At prefix 0 the shift count is 32, which a release build reduces to 0, so the mask stays `0xffffffff` (a debug build panics instead). | `0.0.0.0/0` yields the mask of `/32`: network, broadcast and address coincide, and the block prints back as `0.0.0.0/32`. | Prefix 0 gives the zero mask, the whole address space, and prints back as `/0`. | not executed | Masks.MaskAsWrittenAtZero | Masks.PrefixOfMask |
