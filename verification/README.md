# Models of the networking, list, and flash code

This project models the parts of the firmware SDK that carry algorithms of their own and proves what
they promise. Each part is written twice: in the form the C code has (loops over arrays, nodes relinked
in place, fields updated one turn after another), and as functions on sequences and values that say what
is computed. Every method's contract ties it to those functions; the lemmas are about the functions.

- **DNS search lists** (`DomainNames`, `DomainDecoder`, `CompressedNames`, `DomainEncoder`,
  `DomainRoundTrip`, `DomainLimits`, `WireFormat`): the name encoder with suffix compression and the two-pass
  decoder that follows pointers (section 4.1.4 of RFC 1035). Encoding up to seven names one after another and
  decoding the result gives the names back; of eight or more that need not be so.
- **Linked lists** (`ListShapes`, `MergeSortSpec`, `ListSort`, `ListEdits`): the bottom-up merge sort for
  null-terminated, doubly linked and circular lists, and the editing macros, on nodes with `next` and
  `prev`. The three sorts share their text, which differs in the C macros only in what ends the list,
  whether `prev` is written, and how the list is closed.
- **DHCP client** (`DhcpClientSpec`, `DhcpClientEffects`, `DhcpClientRuns`, `DhcpClientLoop`): the event loop with
  its seven states, three listen modes, timeouts and signals, and what holds at every loop head of every run. The
  messages sent, the script calls and their times form a log, from which "configured", "lease granted" and
  "latest discover" are read off. Seconds the loop does not count (a severe read error's pause, a wake-up with
  neither signal nor packet) are added up as `lost`.
- **DHCP server leases** (`LeaseTable`, `LeaseNames`, `AddressPicker`): the slot table, the host name kept in a
  slot, and the walk round the address pool that finds an address to offer. As shipped, `arpping` always answers that
  nobody has the address (components/net/udhcp/arpping.c:43), and that is what is modelled.
- **DHCP options** (`OptionField`, `OptionOverload`, `SimpleOption`): the search through up to three fields, and
  appending.
- **DHCP relay** (`RelaySpec`, `RelayEffects`, `RelayList`): the list of pending requests and the main loop, against a
  relay that remembers only the latest request under each transaction id.
- **Flash** (`FlashBurn`, `FlashFigures`, `SpiffsLayout`): erasing, programming and reading back over a model of a NOR
  chip, and the block and page arithmetic of SPIFFS.

What the functions themselves mean is told in figures, without naming them: octet by octet in `WireFormat`,
`OptionOverload` and `FlashFigures`, field by field and log entry by log entry in `DhcpClientEffects` and
`RelayEffects`, and by lemmas of that kind in the other modules.

Octets are `byte` (0 to 255); a 32-bit value is a natural number below 2^32, and wrap-around is written out
where the code can reach it (expiry times, ages, the address walk, the hash).

Where comments and code disagree, the code is followed:

- `dname_dec` promises its text behind the contents of `pre`. If the first octet met ends a name, the last
  octet of `pre` becomes a space (`DomainDecoder.PrefixKept`); with an empty `pre` the octet in front of the text
  is written (`DomainDecoder.WhenStray`, `DomainDecoder.StrayWitness`), which the model shows as the outcome `Stray`.
- `NS_MAXDNSRCH` is described as the number of domains in a search path and is used as the number of jumps
  within one name; seven names are always decodable, eight are not (`DomainLimits.SevenIsTheMost`).
- `dname_enc` writes an offset into 14 bits whatever its size; the pointer lands exactly if it fits
  (`CompressedNames.PointerLandsInReach`, `CompressedNames.PointerOutOfReach`). No wrong name comes of it: a text that
  needs such an offset is too long for the decoder (`DomainRoundTrip.DecodesExactly`).
- The retry pause of the DHCP client may be set to over 60 seconds; then a release can leave the interface
  configured (`DhcpClientRuns.WhenAlwaysSettled`).
- The hash of a hardware address is called SDBM, which multiplies by 65599. The statement adds to the old hash and
  so multiplies by 65600; of the first of six octets only two bits count (`AddressPicker.FirstOctetHardlyCounts`).
- The seeded walk goes back to the start of the pool behind its end, but from a pool that ends at 255.255.255.255 to
  0.0.0.0 (`AddressPicker.WhenWalkStaysInPool`, `AddressPicker.OffersOutsidePool`).
- `add_lease` counts the octet behind a received host name as its NUL; a short name is kept unchanged exactly if
  there is one (`LeaseNames.WhenNameKept`). `safe_strncpy` is `strncpy` (components/net/udhcp/udhcp_common.h:56).
- `udhcp_add_binary_option` refuses an option that would fill the field to its last octet together with END, and adds
  options with the codes of END and padding, of which the first is not seen (`OptionField.EndCodeUnseen`) and the second
  can leave the field without END (`OptionField.PaddingCodeBreaksField`).
- `add_lease` called while the clock reads 0 can clear slots and still find none
  (`LeaseTable.NoSlotNoChange` says exactly when the table is unchanged, `LeaseTable.LeaseClearedForNothing` shows one
  that is not).
- The burner erases from the burn address up to the image size, not up to the end of the image
  (`FlashBurn.AlignedImageArrives` says exactly when the image arrives all the same, `FlashBurn.ImageLost` shows one that
  does not), and takes any address, though from inside a page octets come round to the front of that page
  (`FlashBurn.WhenInPlace`), and an address of more than 24 bits can change the command (`FlashBurn.WhenProgramIntact`).
- `SPIFFS_CHECK_MAGIC_POSSIBLE` can pass although a lookup entry shares its place with the magic, and fail although
  none does (`SpiffsLayout.WrongPass`, `SpiffsLayout.WrongRefusal`); for powers of two it is exact.

## Model

| member | source | states |
|---|---|---|
| DomainDecoder.DnameDec | components/net/udhcp/domain_codec.c:31-108 | The two passes with their position, return spot, jump depth and length compute `Decode`: null, or the prefix followed by the text of all labels met |
| DomainDecoder.Pass | components/net/udhcp/domain_codec.c:43-95 | One pass ends on every octet string, cyclic pointers included, and a second pass meets the labels the first one counted and writes only inside the space counted |
| DomainDecoder.RenderKeeps | components/net/udhcp/domain_codec.c:65-85 | Of text already written only the last octet can still change, from a dot to a space |
| DomainDecoder.FirstToken | components/net/udhcp/domain_codec.c:46-86 | The first thing the decoder meets ends a name exactly if the octet six jumps at most lead to from the start is 0; it meets nothing exactly if they lead behind the end |
| DomainDecoder.PrefixKept | components/net/udhcp/domain_codec.c:26-30 | The decoded text starts with the prefix if and only if that octet is not 0 or the prefix ends in a space |
| DomainDecoder.NullWhateverPrefix | components/net/udhcp/domain_codec.c:43-105 | Whether a buffer is refused does not depend on the prefix |
| DomainDecoder.WhenStray | components/net/udhcp/domain_codec.c:65-85 | In a buffer that is not refused, the octet in front of the text is written if and only if there is no prefix and that octet is 0 |
| DomainDecoder.StrayWitness | components/net/udhcp/domain_codec.c:65-85 | The end of a name and then the name `a` is such a buffer; with a prefix of one octet that octet becomes a space |
| WireFormat.PointerOctets | components/net/udhcp/domain_codec.c:53-60 | From an octet of 192 or more reading goes on at 256 times what it exceeds 192 by plus the next octet, and outside a jump comes back two octets on; half a pointer and a seventh jump are refused |
| WireFormat.LabelOctets | components/net/udhcp/domain_codec.c:61-70 | Any other octet n but 0 is followed by a label of n octets, and reading goes on behind it; refused if it runs over the end or the text over 6150 octets |
| WireFormat.EndOctet | components/net/udhcp/domain_codec.c:71-83 | The octet 0 ends a name; reading goes on behind it or, in a jump, at the return spot |
| WireFormat.NoOctet | components/net/udhcp/domain_codec.c:50 | Behind the end of the buffer nothing more is met |
| WireFormat.NothingDecoded | components/net/udhcp/domain_codec.c:43-93 | Null comes exactly of what is refused on the way and of a buffer without any label |
| WireFormat.ListDecoded | components/net/udhcp/domain_codec.c:31-108 | The octets `1 a 3 com 0 1 b 192 2` decode to `a.com b.com` |
| DomainNames.LabelsSpellSource | components/net/udhcp/domain_codec.c:110-151 | The labels a name is split into, joined by dots, are the lower-cased name without trailing dot |
| DomainNames.CanonicalOctets | components/net/udhcp/domain_codec.c:123-141 | Letters 65 to 90 have 32 added, any other octet is kept, and one trailing dot (46) is dropped |
| DomainNames.LabelsAreBetweenDots | components/net/udhcp/domain_codec.c:114-151 | The labels contain no dot, and no other labels without dots spell the name |
| DomainNames.WhichNames | components/net/udhcp/domain_codec.c:110-151 | The names accepted are those with labels of 1 to 63 octets and at most 253 octets of text |
| DomainEncoder.ConvertDname | components/net/udhcp/domain_codec.c:114-151 | Returns null exactly for names with a label of length 0 or over 63 or of 255 octets or more in all; otherwise the labels of the lower-cased name without trailing dot, each behind its length, and a terminator |
| DomainEncoder.SameOctets | components/net/udhcp/domain_codec.c:168-174 | A comparison that stops at the first difference reads nothing outside either string as long as both are long enough or differ before one ends |
| DomainEncoder.MatchAt | components/net/udhcp/domain_codec.c:168-181 | The inner loop of the search, jumps included, ends and finds a match exactly if the buffer spells the name at that offset, in any buffer in which it stays inside |
| DomainEncoder.FindOffset | components/net/udhcp/domain_codec.c:154-190 | Returns the offset `FirstMatch`, in any buffer in which the search stays inside |
| DomainEncoder.SoundStays | components/net/udhcp/domain_codec.c:154-220 | In a buffer built by the encoder every search for a suffix of a valid name stays inside |
| CompressedNames.FirstMatchIsFirst | components/net/udhcp/domain_codec.c:153-190 | The offset found is that of the first label from which the buffer spells the name; -1 only if there is none |
| DomainEncoder.Compress | components/net/udhcp/domain_codec.c:208-220 | The loop that overwrites the first suffix found with a pointer leaves the octets `Encode` |
| DomainEncoder.DnameEnc | components/net/udhcp/domain_codec.c:192-222 | Null and length 0 for a name that is not acceptable, otherwise the octets to append; if they end in a pointer to an offset below 16384, its two octets x and y satisfy x >= 192 and 256 * (x - 192) + y equal to that offset |
| CompressedNames.LongestSuffixIsShared | components/net/udhcp/domain_codec.c:192-222 | The labels in front are written out exactly as far as no suffix from there on is in the buffer; then comes a pointer to the first place of the longest suffix present |
| CompressedNames.PointerLandsInReach | components/net/udhcp/domain_codec.c:211-214 | The pointer written targets the offset found if and only if that is below 16384 |
| CompressedNames.PointerOutOfReach | components/net/udhcp/domain_codec.c:211-214 | The name `a` behind 16384 ends of names is found at 16384, and the pointer to it targets octet 0 |
| CompressedNames.PointerInFigures | components/net/udhcp/domain_codec.c:211-214 | The two octets x and y written for an offset below 16384 satisfy x >= 192 and 256 * (x - 192) + y equal to it |
| CompressedNames.EncodedOctets | components/net/udhcp/domain_codec.c:207-221 | So do the last two octets appended for a name that ends in a pointer |
| CompressedNames.ReadsThroughPointer | components/net/udhcp/domain_codec.c:177-178 | The search reads a name at such octets exactly if the buffer spells it at 256 * (x - 192) + y |
| WireFormat.ListEncoded | components/net/udhcp/domain_codec.c:192-222 | Behind `a.com` the name `B.Com.` becomes the octets `1 b 192 2` |
| CompressedNames.EncodeKeepsSound | components/net/udhcp/domain_codec.c:153-222 | Appending a name whose pointer is in reach spells it where it was appended, through at most one jump more than before, and every pointer in the buffer still targets a label to its left, never a pointer |
| CompressedNames.MatchesUnique | components/net/udhcp/domain_codec.c:168-181 | An offset spells at most one name |
| DomainRoundTrip.CompressedHolds | components/net/udhcp/domain_codec.c:192-222 | In a buffer built by successive encoding, as long as each pointer written was in reach, the k-th name (from 0) is read through at most k jumps |
| DomainRoundTrip.WalkName | components/net/udhcp/domain_codec.c:43-95 | From any position that spells a name the decoder meets its labels and returns behind it, or refuses if that takes over six jumps or over 6150 octets |
| DomainRoundTrip.WalkThrough | components/net/udhcp/domain_codec.c:43-95 | Over a buffer of names the decoder meets the labels of all of them, whatever follows, unless one takes over six jumps or the text is over 6150 octets |
| DomainRoundTrip.TextInReach | components/net/udhcp/domain_codec.c:192-222 | A text of at most 6150 octets keeps every pointer in reach |
| DomainRoundTrip.LongTextRefused | components/net/udhcp/domain_codec.c:31-222 | Names with a longer text are refused, whatever follows and wherever their pointers lead |
| DomainRoundTrip.DecodesExactly | components/net/udhcp/domain_codec.c:31-222 | Any non-empty names encoded one after another come back if and only if the text is at most 6150 octets and none takes over six jumps; otherwise null |
| WireFormat.DecodesInFigures | components/net/udhcp/domain_codec.c:31-222 | In figures: names come back exactly if their text, separated by spaces, has fewer than 6150 octets and none takes more than six jumps |
| DomainRoundTrip.RoundTrip | components/net/udhcp/domain_codec.c:31-222 | Any one to seven acceptable names come back in lower case, without trailing dots, separated by single spaces, behind the prefix |
| DomainRoundTrip.NestedDepths | components/net/udhcp/domain_codec.c:192-222 | If each name puts one label in front of the one before, the k-th is read through exactly k jumps |
| DomainLimits.EightNestedNamesRefused | components/net/udhcp/domain_codec.c:31-222 | Names that begin with eight such names are refused by the decoder, whatever follows |
| DomainLimits.NestedSourcesRefused | components/net/udhcp/domain_codec.c:31-222 | For every n from eight on there are n acceptable names that are refused: `a`, `b.a` and so on to the eighth, then `a` again |
| DomainLimits.SevenIsTheMost | components/net/udhcp/domain_codec.c:31-222 | All choices of n acceptable names come back if and only if n is at most seven |
| DomainLimits.BrokenOff | components/net/udhcp/domain_codec.c:46-93 | Behind the labels of a name the decoder accepts the end of the buffer, and a pointer to or behind it; it refuses half a pointer and a label longer than what is left |
| DomainLimits.PointerBehindEndAccepted | components/net/udhcp/domain_codec.c:52-59 | The name `a` with a pointer to octet 200 of four is accepted |
| MergeSortSpec.SortSorts | components/osal/ulist.h:111-170 | The passes with doubling run size give a sorted permutation with equal elements in the order they had |
| MergeSortSpec.StableSortUnique | components/osal/ulist.h:111-170 | There is only one such result, so any other way to merge or to choose runs gives the same list |
| MergeSortSpec.PassDoublesRuns | components/osal/ulist.h:119-168 | One pass turns a list of sorted runs of the current size into one of sorted runs of twice the size |
| MergeSortSpec.PassStable | components/osal/ulist.h:119-168 | One pass over sorted runs keeps equal elements in order |
| MergeSortSpec.SortFromPermutes | components/osal/ulist.h:119-168 | Whatever `cmp` answers, no node is lost or doubled |
| MergeSortSpec.SortCost | components/osal/ulist.h:119-168 | n nodes take max(1, ceil(log2 n)) passes and at most n * ceil(log2 n) calls of `cmp` |
| MergeSortSpec.RunSizeFits | components/osal/ulist.h:119-168 | The run size doubled once a pass ends up at least n and, for up to 2^30 nodes, within a 32-bit `int` |
| ListSort.SecondRun | components/osal/ulist.h:126-131 | The counting loop finds the second run behind `insize` nodes or at the end of the list |
| ListSort.TakesLeft | components/osal/ulist.h:132-150 | The next node comes from the other run if one is used up, otherwise from the left one unless `cmp` puts the right one first; `cmp` is called at most once |
| ListSort.MergeStep | components/osal/ulist.h:132-160 | One turn links that node behind the list, and what is left to merge is what was, without it |
| ListSort.MergeRuns | components/osal/ulist.h:132-160 | The inner loop links the merge of two neighbouring runs behind the list built so far, with as many calls of `cmp` as `MergeCalls` |
| ListSort.SortPass | components/osal/ulist.h:119-161 | One pass relinks the nodes into `Pass` of the list and counts the merges |
| ListSort.SortOf | components/osal/ulist.h:119-168 | The loop of passes, for each kind of list, ends with the nodes relinked as `Sort`, after `Passes` passes and `SortCalls` calls of `cmp` |
| ListSort.SortLL | components/osal/ulist.h:111-170 | The same nodes end up as the null-terminated list `Sort`, in exactly `Passes` passes and with `SortCalls` calls of `cmp`; `prev` is not written |
| ListSort.SortDL | components/osal/ulist.h:175-233 | The same for a doubly linked list, with `prev` mirroring `next` and the head's `prev` the tail |
| ListSort.SortCDL | components/osal/ulist.h:238-310 | The same for a ring, with the old head as the end of the list while it is rewritten, closed again in both directions |
| ListEdits.LowerIndexSplits | components/osal/ulist.h:672-683 | The lower bound is behind all leading nodes below the key and in front of the first that is not |
| ListEdits.InsertSorted | components/osal/ulist.h:656-667 | Inserting at the lower bound keeps a sorted list sorted, with the new node before its equals |
| ListEdits.PrependDL | components/osal/ulist.h:624-634 | A doubly linked list with the new node in front |
| ListEdits.AppendDL | components/osal/ulist.h:639-651 | The same with the new node at the end |
| ListEdits.InsertInorderDL | components/osal/ulist.h:656-667 | The new node stands at the lower bound and all links are those of the longer list |
| ListEdits.LowerBoundDL | components/osal/ulist.h:672-683 | Returns the last of the leading nodes below the key, or null |
| ListEdits.ConcatDL | components/osal/ulist.h:688-701 | Two lists become one, either may be empty |
| ListEdits.DeleteDL | components/osal/ulist.h:706-723 | The list without that node: only one, first, last or inside |
| ListEdits.ReplaceElemDL | components/osal/ulist.h:753-777 | The list with another node in its place |
| ListEdits.PrependElemDL | components/osal/ulist.h:782-798 | The new node stands in front of the given one, or last without one |
| ListEdits.AppendElemDL | components/osal/ulist.h:803-819 | The new node stands behind the given one, or first without one |
| ListEdits.AppendCDL | components/osal/ulist.h:863-875 | A ring with the new node at the end |
| ListEdits.PrependCDL | components/osal/ulist.h:880-892 | A ring with the new node in front |
| ListEdits.InsertInorderCDL | components/osal/ulist.h:897-908 | The new node stands at the lower bound of the ring |
| ListEdits.LowerBoundCDL | components/osal/ulist.h:913-924 | Returns the last of the leading nodes below the key, or null |
| ListEdits.DeleteCDL | components/osal/ulist.h:929-938 | The ring without that node |
| ListEdits.ReplaceElemCDL | components/osal/ulist.h:983-1001 | The ring with another node in its place |
| ListEdits.PrependElemCDL | components/osal/ulist.h:1006-1021 | The new node stands in front of the given one, or last without one |
| ListEdits.AppendElemCDL | components/osal/ulist.h:1026-1038 | The new node stands behind the given one, or first without one |
| ListEdits.AppendElemLL | components/osal/ulist.h:494-504 | The same for a null-terminated list |
| ListEdits.LowerBoundLL | components/osal/ulist.h:372-383 | Returns the last of the leading nodes below the key, or null |
| ListEdits.InsertInorderLL | components/osal/ulist.h:357-367 | The new node stands at the lower bound of the null-terminated list |
| DhcpClientEffects.AckBinds | components/net/udhcp/dhcpc.c:1686-1764 | From REQUESTING, RENEWING, RENEW_REQUESTED and REBINDING a DHCPACK for us, without conflict and quit-after-lease, gives BOUND, no socket, its address, half its lease as timeout, and one log entry more with that lease, the script being "bound" only from REQUESTING; and the way to the background once; nothing else changes |
| DhcpClientEffects.AckQuits | components/net/udhcp/dhcpc.c:1686-1795 | With quit-after-lease the loop ends there |
| DhcpClientEffects.AckReleases | components/net/udhcp/dhcpc.c:1686-1795 | With a release of that address to the server and a deconfiguration behind it if asked to release on quitting |
| DhcpClientEffects.AckDeclined | components/net/udhcp/dhcpc.c:1715-1735 | A conflict sends one decline of that address to the server that offered it, deconfigures unless requesting, and starts over after the retry pause with the raw socket |
| DhcpClientEffects.NakStartsOver | components/net/udhcp/dhcpc.c:1765-1779 | A DHCPNAK for us runs "nak", deconfigures unless requesting, and starts over 3 s later with timeout 0 |
| DhcpClientEffects.OfferSelected | components/net/udhcp/dhcpc.c:1637-1681 | A DHCPOFFER for us gives REQUESTING with its server, 0 without one, and address; the timeout that follows at once logs one select with exactly these |
| DhcpClientEffects.OthersOnlyTakeTime | components/net/udhcp/dhcpc.c:1590-1783 | Any other packet, read errors and wake-ups change only the clock and the time waited |
| DhcpClientEffects.Discovers | components/net/udhcp/dhcpc.c:1453-1462 | While tries are left, one discover for the address remembered, with a new xid exactly at the first try |
| DhcpClientEffects.Selects | components/net/udhcp/dhcpc.c:1482-1490 | While tries are left, one select more |
| DhcpClientEffects.GivesUpTrying | components/net/udhcp/dhcpc.c:1463-1496 | Without tries left: "leasefail", then the end with -n unless it goes to the background with -b, otherwise a pause and INIT_SELECTING |
| DhcpClientEffects.RenewsByUnicast | components/net/udhcp/dhcpc.c:1497-1524 | With over 60 s of timeout one renewal to the server and half the timeout, from BOUND with the kernel socket in RENEWING |
| DhcpClientEffects.RenewsByBroadcast | components/net/udhcp/dhcpc.c:1519-1532 | Otherwise, with any timeout left, one renewal to everyone, half the timeout, and the raw socket in REBINDING |
| DhcpClientEffects.LosesLease | components/net/udhcp/dhcpc.c:1533-1543 | With none left the interface is deconfigured and the client starts over |
| DhcpClientEffects.StaysReleased | components/net/udhcp/dhcpc.c:1544-1548 | A released client waits 2^31 - 1 s more |
| DhcpClientEffects.SignalRenews | components/net/udhcp/dhcpc.c:1497-1574 | SIGUSR1 with a lease, the timeout capped by the retry pause over 60 s: one renewal to the server at once, half that timeout, RENEW_REQUESTED |
| DhcpClientEffects.SignalRebinds | components/net/udhcp/dhcpc.c:1497-1574 | At most 60 s and not 0: one renewal to everyone, the raw socket, REBINDING |
| DhcpClientEffects.SignalLosesLease | components/net/udhcp/dhcpc.c:1497-1574 | 0: the interface is deconfigured and the client starts over |
| DhcpClientEffects.SignalStartsOver | components/net/udhcp/dhcpc.c:1555-1579 | Without a lease it starts over at once, deconfigured if a requested renewal was pending |
| DhcpClientEffects.SignalReleases | components/net/udhcp/dhcpc.c:1098-1117 | SIGUSR2 sends a release of the address to the server and deconfigures exactly in BOUND, RENEWING and REBINDING; then RELEASED without a socket |
| DhcpClientEffects.Stops | components/net/udhcp/dhcpc.c:1787-1795 | SIGTERM and a lost interface end the loop, with such a release first exactly if asked to |
| DhcpClientEffects.WhatCanHappen | components/net/udhcp/dhcpc.c:1394-1433 | The wait can always end; while it is not over anything can happen, packets with a socket only |
| DhcpClientEffects.StartsDeconfigured | components/net/udhcp/dhcpc.c:1383-1393 | All variables at the first loop head |
| DhcpClientEffects.ConfiguredMeans | components/net/udhcp/dhcpc.c:1394-1785 | "Configured" means that some "bound" or "renew" script is in the log with no "deconfig" behind it |
| DhcpClientEffects.GrantMeans | components/net/udhcp/dhcpc.c:1394-1785 | The grant is the time and lease of the last such script |
| DhcpClientEffects.DiscoverMeans | components/net/udhcp/dhcpc.c:1394-1785 | The latest discover is the last in the log |
| DhcpClientEffects.BackgroundedMeans | components/net/udhcp/dhcpc.c:1130-1138 | Backgrounded at most once means no two entries of the log say so |
| DhcpClientEffects.XidsAgreeMeans | components/net/udhcp/dhcpc.c:1394-1785 | Xids agree means that each select and renewal has that of the last discover in the log before it |
| DhcpClientEffects.OverdueMeans | components/net/udhcp/dhcpc.c:1394-1785 | Overdue by at most s seconds means that no entry of the log comes with the interface configured over s seconds after the end of its lease |
| DhcpClientEffects.LostMeans | components/net/udhcp/dhcpc.c:1590-1613 | The seconds lost are those of an empty wake-up, and the discover timeout for a severe read error |
| DhcpClientRuns.StepInv | components/net/udhcp/dhcpc.c:1394-1785 | Every turn of the loop keeps: while a lease is held, (seconds since it was granted minus seconds already waited) + 2 * timeout exceeds the lease by no more than the seconds lost; the xid in use is that of the latest discover; the listen mode fits the state; and the client went to the background at most once |
| DhcpClientRuns.RunInv | components/net/udhcp/dhcpc.c:1394-1785 | So it holds at every loop head of every run, in whatever order timeouts, packets, signals, read errors and empty wake-ups come |
| DhcpClientRuns.NothingLost | components/net/udhcp/dhcpc.c:1590-1613 | Without severe read errors and empty wake-ups no seconds are lost |
| DhcpClientRuns.WakesInTime | components/net/udhcp/dhcpc.c:1411-1433 | A wait begun while a lease is held is over before the lease is, but for the seconds lost |
| DhcpClientRuns.StepSettled | components/net/udhcp/dhcpc.c:1394-1785 | A turn keeps "configured exactly in BOUND, RENEWING, RENEW_REQUESTED and REBINDING, and no lease outstayed but for the seconds lost" if and only if it is not a release while a requested renewal is pending; such a renewal becomes pending exactly by SIGUSR1 with a timeout over 60 s left |
| DhcpClientRuns.RunSettled | components/net/udhcp/dhcpc.c:1394-1785 | With a retry pause of at most 60 s, at every loop head the interface is configured exactly in BOUND, RENEWING and REBINDING, RENEW_REQUESTED is never seen, nothing listens exactly in BOUND and RELEASED, the kernel socket exactly in RENEWING, and every select and renewal so far carried the latest discover's xid |
| DhcpClientRuns.ReleasedConfigured | components/net/udhcp/dhcpc.c:1098-1117 | With a longer pause a SIGUSR1 in BOUND with over 60 s of timeout and then a SIGUSR2 leave the client released and the interface configured |
| DhcpClientRuns.LongPauseLeavesConfigured | components/net/udhcp/dhcpc.c:1394-1785 | A whole run that ends so: discover, offer, select, acknowledgement of 1000 s, SIGUSR1, SIGUSR2 |
| DhcpClientRuns.RunLeaseless | components/net/udhcp/dhcpc.c:1482-1496 | A client that quits with its lease, or does not wait for answers, holds no lease at any loop head |
| DhcpClientRuns.WhenRunSettled | components/net/udhcp/dhcpc.c:1394-1785 | With any configuration, at every loop head of a run the interface is configured exactly while a lease is held and no lease was outstayed but for the seconds lost, if and only if no SIGUSR2 arrives in RENEW_REQUESTED |
| DhcpClientRuns.WhenAlwaysSettled | components/net/udhcp/dhcpc.c:1394-1785 | At every loop head of every run the interface is configured exactly while a lease is held, if and only if the retry pause is at most 60 s, the discover timeout is 0 or the client quits with its lease |
| DhcpClientRuns.RenewalsOrder | components/net/udhcp/dhcpc.c:1497-1543 | A timeout of t seconds leads to bitlength(t) renewals, all unicast ones before all broadcast ones |
| DhcpClientRuns.SilentLease | components/net/udhcp/dhcpc.c:1497-1543 | From BOUND or RENEWING without replies or signals the client sends exactly these renewals, waits 2t minus the one-bits of t seconds, deconfigures and starts again |
| DhcpClientRuns.UnrenewedLease | components/net/udhcp/dhcpc.c:1497-1543 | After an acknowledgement of lease L that is kept, the client waits exactly L minus the number of one-bits of L seconds, sends bitlength(L) - 1 renewals and gives the address up |
| DhcpClientSpec.LeaseSeconds | components/net/udhcp/dhcpc.c:1687-1703 | The lease counted on is the value received if that is between 16 and 2^28 - 1 seconds, 16 below, 2^28 - 1 above, 3600 without the option |
| DhcpClientLoop.Loop.constructor | components/net/udhcp/dhcpc.c:1383-1388 | The variables at the first loop head |
| DhcpClientLoop.Loop.ChangeListenMode | components/net/udhcp/dhcpc.c:1055-1073 | The old socket is closed, the open one is that of the new mode, and nothing else changes |
| DhcpClientLoop.Loop.ClientBackground | components/net/udhcp/dhcpc.c:1130-1138 | The client goes to the background and its options no longer ask for that |
| DhcpClientLoop.Loop.PerformRenew | components/net/udhcp/dhcpc.c:1076-1096 | The state each state goes to on SIGUSR1, with its listen mode and deconfiguration |
| DhcpClientLoop.Loop.PerformRelease | components/net/udhcp/dhcpc.c:1098-1117 | A release is sent and the interface deconfigured exactly in BOUND, RENEWING and REBINDING; the end is RELEASED without a socket |
| DhcpClientLoop.Loop.SendDiscover | components/net/udhcp/dhcpc.c:1453-1462 | A discover with a fresh xid at the first try, until the retries are used up |
| DhcpClientLoop.Loop.LeaseFail | components/net/udhcp/dhcpc.c:1463-1481 | Goes to the background if asked to and pauses, or ends the client, or pauses and starts counting again |
| DhcpClientLoop.Loop.SendSelect | components/net/udhcp/dhcpc.c:1482-1496 | A select with the offer's server and address, or back to the start |
| DhcpClientLoop.Loop.SendRenewal | components/net/udhcp/dhcpc.c:1504-1524 | A unicast renewal and half the timeout over 60 s, otherwise on to rebinding |
| DhcpClientLoop.Loop.SendRebinding | components/net/udhcp/dhcpc.c:1525-1543 | A broadcast renewal and half the timeout, or the lease is given up |
| DhcpClientLoop.Loop.OnTimeout | components/net/udhcp/dhcpc.c:1449-1548 | What each state does when its timeout is over |
| DhcpClientLoop.Loop.HandleSignal | components/net/udhcp/dhcpc.c:1555-1587 | SIGUSR1 renews with the timeout capped by the retry pause, SIGUSR2 releases, SIGTERM quits |
| DhcpClientLoop.Loop.ReadLeaseTime | components/net/udhcp/dhcpc.c:1687-1703 | One hour without the option, the value received if it is between 16 and 2^28 - 1, and never outside that |
| DhcpClientLoop.Loop.DeclineAddress | components/net/udhcp/dhcpc.c:1715-1735 | The server is told, the interface deconfigured unless still requesting, and the client pauses before it starts over |
| DhcpClientLoop.Loop.TakeLease | components/net/udhcp/dhcpc.c:1738-1747 | Half of the lease is the timeout, the script gets the lease, and the client is bound without a socket |
| DhcpClientLoop.Loop.KeepLease | components/net/udhcp/dhcpc.c:1748-1763 | Quits if asked to; otherwise the first lease sends the client to the background unless it is to stay in front |
| DhcpClientLoop.Loop.AcceptLease | components/net/udhcp/dhcpc.c:1738-1763 | The lease is taken and then kept |
| DhcpClientLoop.Loop.Acknowledge | components/net/udhcp/dhcpc.c:1686-1764 | An address in use is declined, any other lease is taken and kept |
| DhcpClientLoop.Loop.Refuse | components/net/udhcp/dhcpc.c:1765-1779 | Deconfigured unless still requesting, and back to the start after 3 s |
| DhcpClientLoop.Loop.TakeOffer | components/net/udhcp/dhcpc.c:1637-1681 | The offer's server, 0 without one, and address are asked for at once |
| DhcpClientLoop.Loop.HandlePacket | components/net/udhcp/dhcpc.c:1607-1783 | Only packets with our xid, hardware address and a message type count, and only those the state waits for; what each then does is told by `DhcpClientEffects.AckBinds` to `OthersOnlyTakeTime` |
| DhcpClientLoop.Loop.Exit | components/net/udhcp/dhcpc.c:1787-1790 | Releases first if asked to |
| DhcpClientLoop.Loop.Dispatch | components/net/udhcp/dhcpc.c:1394-1785 | One turn of the loop takes the client from one state of a run to the next, `Step` |
| DhcpClientLoop.Loop.Turn | components/net/udhcp/dhcpc.c:1394-1785 | Every turn keeps `Valid`: the open socket is that of the listen mode, and the invariant of all runs holds of the variables |
| DhcpClientLoop.Loop.WaitEndsWithLease | components/net/udhcp/dhcpc.c:1411-1418 | Whenever the loop is about to wait with a lease, now + (timeout - already waited) is at most the end of the lease plus the seconds lost |
| LeaseTable.OldestIsOldest | components/net/udhcp/leases.c:16-31 | The slot found has expired, none expires earlier, and it is the first such; none only if nothing has expired |
| LeaseTable.AddKeepsUnique | components/net/udhcp/leases.c:33-89 | Adding any lease keeps nonzero hardware and IP addresses unique in the table |
| LeaseTable.AddSpares | components/net/udhcp/leases.c:33-89 | An unexpired lease with another hardware address and another IP stays in its slot unchanged |
| LeaseTable.NoSlotNoChange | components/net/udhcp/leases.c:53-89 | When no slot was found the table is as before if and only if the clock was not 0 or nothing was cleared |
| LeaseTable.LeaseClearedForNothing | components/net/udhcp/leases.c:53-89 | With the clock at 0 the station of the only lease loses it and gets no slot |
| LeaseTable.SlotFound | components/net/udhcp/leases.c:53-89 | With a nonzero clock a slot is found if and only if some lease has expired or belongs to the station or the address asked for |
| LeaseTable.AddedIsFound | components/net/udhcp/leases.c:53-119 | The lease is found under its address, belongs to the station, carries the host name cleaned and cut, and expires after the time granted unless that wraps |
| LeaseTable.AddedInFull | components/net/udhcp/leases.c:33-89 | Slot by slot: those of the station or the nonzero address are all zero, the one taken has expiry, address, station and name of the new lease, every other is as it was |
| LeaseTable.FirstExpiredTaken | components/net/udhcp/leases.c:16-89 | The slot taken is the first of those that expire earliest once the clashing ones count as expired at 0; none if none has expired |
| LeaseTable.UniqueForever | components/net/udhcp/leases.c:33-89 | Over any sequence of additions addresses stay unique |
| LeaseTable.LeaseSurvives | components/net/udhcp/leases.c:33-89 | Over any sequence of additions for other stations and addresses an unexpired lease stays |
| LeaseTable.Table.OldestExpiredLease | components/net/udhcp/leases.c:16-31 | The loop over the array finds `OldestIn` |
| LeaseTable.Table.ClearLeases | components/net/udhcp/leases.c:33-47 | Exactly the slots of that station or that nonzero address are zeroed |
| LeaseTable.Table.AddLease | components/net/udhcp/leases.c:53-89 | The array and the slot returned are those of `Added`, and exactly a slot that was used is reported to the access point |
| LeaseNames.WhenNameKept | components/net/udhcp/leases.c:67-79 | A name shorter than the field is kept, but for characters that are not printable, if and only if a NUL stands behind it; otherwise the octet there becomes part of it |
| LeaseNames.LongNameCut | components/net/udhcp/leases.c:67-79 | A longer name is cut to 20 octets |
| LeaseNames.CopyName | components/net/udhcp/leases.c:70-73 | The field holds the octets up to the first NUL, and NULs |
| LeaseNames.Sanitize | components/net/udhcp/leases.c:74-79 | Exactly the octets before the first NUL that are not printable ASCII become carets |
| LeaseNames.StoreName | components/net/udhcp/leases.c:66-80 | The whole field is `Field` of the name |
| LeaseNames.FieldInFigures | components/net/udhcp/leases.c:66-80 | The field has 20 octets: those up to the first NUL if they are 32 to 126, 94 in place of others, 0 behind |
| LeaseTable.Table.FindLeaseByMac | components/net/udhcp/leases.c:98-107 | The first slot of the station, or none |
| LeaseTable.Table.FindLeaseByNip | components/net/udhcp/leases.c:110-119 | The first slot with the address, or none |
| AddressPicker.VisitsEachOnce | components/net/udhcp/leases.c:158-206 | The walk, wherever it starts, meets every address of the pool exactly once |
| AddressPicker.WalkOn | components/net/udhcp/leases.c:158-206 | The next address of the walk, 32-bit wrap-around included, is the stop mark exactly behind the last one |
| AddressPicker.WhenWalkStaysInPool | components/net/udhcp/leases.c:147-206 | All addresses visited lie in the pool if and only if the walk is not seeded, or the pool does not end at 255.255.255.255, or it starts at 0.0.0.0 |
| AddressPicker.WalkInFigures | components/net/udhcp/leases.c:147-206 | The walk starts at the first pool address, or seeded at the hash modulo the number of pool addresses, and goes up by one, seeded from the end of the pool to its start and from 255.255.255.255 to 0.0.0.0 |
| AddressPicker.OffersOutsidePool | components/net/udhcp/leases.c:147-206 | A pool of two addresses, nothing leased, and 0.0.0.1 is offered |
| AddressPicker.SomeFirstFree | components/net/udhcp/leases.c:166-206 | If any address of the pool is free the walk has a first free one |
| AddressPicker.HashMac | components/net/udhcp/leases.c:151-156 | The hash is the number the octets are the digits of to the base 65600, modulo 2^32 |
| AddressPicker.FirstOctetHardlyCounts | components/net/udhcp/leases.c:151-156 | Two stations that differ in the first octet only have the same hash if and only if its two lowest bits agree |
| AddressPicker.IsNipReserved | components/net/udhcp/static_leases.c:47-56 | True exactly for the addresses of the static leases |
| AddressPicker.Examine | components/net/udhcp/leases.c:166-198 | What the loop does with one address: `Free` is offered, `Reclaimable` replaces the candidate if it ends earlier; what these exclude is told by `FindFreeOrExpiredNip` |
| AddressPicker.WalkEnds | components/net/udhcp/leases.c:147-165 | Where the walk starts, from the hash if seeded, and where it stops |
| AddressPicker.FindFreeOrExpiredNip | components/net/udhcp/leases.c:142-218 | A nonzero answer is the octets, highest first in memory, of a searched address that does not end in 0 or 255, is not the server's, not reserved, and in no slot or in that of a station not associated; if any such address is in no slot neither is the answer, the first on the walk; otherwise it is the one whose lease ends first, the first on the walk among equals; 0 if there is none |
| AddressPicker.MemoryExample | components/net/udhcp/leases.c:176 | 192.168.1.1 is kept as 0x0101A8C0 |
| OptionField.GetOption | components/net/udhcp/common.c:244-306 | The search through `options`, then `file`, then `sname`, ends on every packet and is parse-then-search, `Lookup` |
| OptionField.ParsedInside | components/net/udhcp/common.c:244-306 | Every option parsed lies in its field with code, length and full data |
| OptionField.IndexIsFirst | components/net/udhcp/common.c:244-306 | The option looked up among those parsed is the first with its code |
| OptionField.FoundInside | components/net/udhcp/common.c:244-306 | What is found has its code, length and full data inside one field |
| OptionOverload.FieldOctets | components/net/udhcp/common.c:257-305 | Octet by octet: 0 is skipped, 255 ends the field, anything else is an option with its length behind it, which must lie inside |
| OptionOverload.OverloadInFigures | components/net/udhcp/common.c:266-306 | With one overload option of octet v in a well-formed options field without the code: for v % 4 = 1 the first option with the code in `file` or nothing, for 2 the same of `sname`, for 3 that of `file` if it has one and otherwise of `sname` if `file` is well formed, for 0 nothing; for 1 and 2 that field holds no overload option |
| OptionOverload.FileThenSname | components/net/udhcp/common.c:266-306 | Both fields asked for, `file` decides and then, if that ends without the option, `sname`, whatever overload options they hold |
| OptionOverload.LastField | components/net/udhcp/common.c:266-306 | With no more fields to read, a field gives the first option with the code or nothing |
| OptionField.JunkDoesNotMatter | components/net/udhcp/common.c:284-299 | The octets read behind a field never decide the result |
| OptionField.EndOption | components/net/udhcp/common.c:308-319 | The offset of the END option; without a well-formed field the search leaves the field |
| OptionField.AddBinaryOption | components/net/udhcp/common.c:321-341 | The field becomes `Appended`, whatever the code, exactly if it was well formed, and stays so with a code that is neither END nor padding; otherwise the search for END leaves the field |
| OptionOverload.RoomInFigures | components/net/udhcp/common.c:321-341 | An option is written in place of END, with END behind it, exactly if it ends at octet 306 or before of the 308 |
| OptionField.EndCodeUnseen | components/net/udhcp/common.c:321-341 | An option with the code of END changes nothing of what the field holds |
| OptionField.PaddingCodeBreaksField | components/net/udhcp/common.c:321-341 | An option with the code of padding added to an empty field of zeros leaves a field without END |
| OptionField.AppendedParses | components/net/udhcp/common.c:321-341 | An option that fits becomes the last one of the field, behind those it had; one that does not changes nothing |
| OptionField.AllAppended | components/net/udhcp/common.c:321-341 | A sequence of additions leaves the options the field had and then those that fitted, in order |
| OptionField.LookupAmong | components/net/udhcp/common.c:244-306 | In a well-formed options field the first option with the code is found; without one the result lies in `file` or `sname`, and only if there is an overload option |
| OptionField.AddedIsFound | components/net/udhcp/common.c:244-341 | After any additions to an empty field the search finds for each code the first option added that fitted, whole and in the options field; for other codes nothing, or something in `file` or `sname` if an overload option was added |
| SimpleOption.AddSimpleOption | components/net/udhcp/common.c:344-367 | An option of the table's width with the lowest octets of the number, and whatever stands behind the fourth, is appended; an unknown code changes nothing |
| SimpleOption.FourOctets | components/net/udhcp/common.c:29-92 | The codes with four octets |
| SimpleOption.OneOrTwoOctets | components/net/udhcp/common.c:29-92 | The codes with one and with two |
| SimpleOption.OtherWidths | components/net/udhcp/common.c:29-92 | The codes with eight, five and 22, and that no other code has a width |
| SimpleOption.SimpleInFigures | components/net/udhcp/common.c:344-367 | A message type is the octets 53, 1 and the type; a lease time 51, 4 and its octets, lowest first |
| SimpleOption.SimpleIsFound | components/net/udhcp/common.c:244-367 | A number added to a field with room and without that option is the number found under its code if the option has at most four octets; a wider one holds it in its first four |
| RelayEffects.RequestPassed | components/net/udhcp/dhcprelay.c:193-216 | A client message of type 1, 3, 4, 7 or 8 is remembered first in the list and adds one message to the server, with the interface's address as gateway if it can be read and ours otherwise |
| RelayEffects.RequestDropped | components/net/udhcp/dhcprelay.c:199-206 | Any other type from a client changes nothing |
| RelayEffects.ReplyPassed | components/net/udhcp/dhcprelay.c:222-249 | A server message of type 2, 5 or 6 that can be sent adds one message to the client of the newest request with its xid, to 255.255.255.255 if that came from 0.0.0.0 and to its address otherwise, and exactly the requests with the xid are forgotten |
| RelayEffects.ReplyUnsent | components/net/udhcp/dhcprelay.c:222-249 | If it cannot be sent only that address is changed |
| RelayEffects.ReplyDropped | components/net/udhcp/dhcprelay.c:222-240 | Any other type from the server, or a reply without a remembered request, changes nothing |
| RelayEffects.OldForgotten | components/net/udhcp/dhcprelay.c:56-72 | Exactly the requests over 120 s old in 32-bit arithmetic are forgotten |
| RelaySpec.StepOrdered | components/net/udhcp/dhcprelay.c:38-100 | Every event keeps the list newest first with client indices in range; after expiry no entry is older than 120 s |
| RelaySpec.RunOrdered | components/net/udhcp/dhcprelay.c:283-370 | So does every run on a monotonic clock |
| RelaySpec.RunSame | components/net/udhcp/dhcprelay.c:193-370 | In every run the packets sent, with gateway address or with socket and client address, are those of a relay that remembers only the latest request under each xid, 0.0.0.0 becoming broadcast |
| RelaySpec.SilentUntilRequest | components/net/udhcp/dhcprelay.c:222-249 | While no request with an xid is remembered and none comes, no reply with it is passed on |
| RelaySpec.OneReplyPerRequest | components/net/udhcp/dhcprelay.c:222-249 | After a reply was passed on, no other with its xid is until a new request comes |
| RelayList.RelayState.XidAdd | components/net/udhcp/dhcprelay.c:38-54 | The new item is linked in front |
| RelayList.RelayState.XidExpire | components/net/udhcp/dhcprelay.c:56-72 | Exactly the items older than 120 s are unlinked, the others stay in order |
| RelayList.RelayState.XidFind | components/net/udhcp/dhcprelay.c:74-84 | The newest item with that xid, or null |
| RelayList.RelayState.XidDel | components/net/udhcp/dhcprelay.c:86-100 | Exactly the items with that xid are unlinked |
| RelayList.RelayState.PassToServer | components/net/udhcp/dhcprelay.c:193-216 | The list and the packets sent are those of `Step`, told by `RelayEffects.RequestPassed` and `RequestDropped` |
| RelayList.RelayState.PassToClient | components/net/udhcp/dhcprelay.c:222-249 | A server message goes to the newest request with its xid, whose items are dropped once it was sent |
| RelayList.RelayState.Turn | components/net/udhcp/dhcprelay.c:283-370 | One turn of the main loop is the run of the server packet, the client packets in socket order, each with our address on its interface or else on the server's as gateway, and expiry |
| FlashBurn.CommandArrives | utils/src-SPI_burn/flash.c:205-236 | The chip gets the low 24 bits of the address, and the command or-ed with the address's top octet, which is the command if and only if that adds no bit |
| FlashBurn.BothArrive | utils/src-SPI_burn/flash.c:205-236 | Below 2^24 both commands and the whole address arrive |
| FlashBurn.WhenProgramIntact | utils/src-SPI_burn/flash.c:219-236 | A page program arrives as such if and only if the top octet of the address is 0 or 2 |
| FlashFigures.WordOnTheWire | utils/src-SPI_burn/flash.c:205-236 | Lowest octet first, the words are 0x20 or 0x02 or-ed with the top octet of the address, and then its other octets, highest first |
| FlashFigures.TakenFromTheWire | utils/src-SPI_burn/flash.c:230-232 | The chip takes the first octet as the command and the other three as an address, highest first |
| FlashBurn.SectorErase | utils/src-SPI_burn/flash.c:205-217 | Exactly the sector of an address in the flash is 0xFF |
| FlashBurn.PageProgram | utils/src-SPI_burn/flash.c:219-236 | If the command arrives, the octets of at most a page clear bits from the address on, coming round in its page; otherwise the chip sees another command |
| FlashFigures.SlotInFigures | utils/src-SPI_burn/flash.c:219-236 | Octet i programmed at an address stays in its page of 256, at (address + i) % 256 |
| FlashBurn.EraseLoop | utils/src-SPI_burn/main.c:247-267 | Exactly the sectors from the one the address lies in up to the rounded-up image size, or all, are 0xFF |
| FlashFigures.RoundUpIsLeast | utils/src-SPI_burn/main.c:257 | The bound of the erase loop is the least multiple of 4096 not below the image size |
| FlashFigures.ErasedInFigures | utils/src-SPI_burn/main.c:247-267 | What is erased: all 0x200000 octets, or from the sector of the address on what lies below that bound, and nothing if the address does not |
| FlashBurn.ProgramPage | utils/src-SPI_burn/flash.c:219-236 | From any address, exactly the octets that `Index` gives to those places of the image get the bits cleared |
| FlashBurn.SlotIndex | utils/src-SPI_burn/flash.c:219-236 | Octet n + i of the image goes to a place of the flash if and only if it is that place's `Index` |
| FlashBurn.EachOctetOnce | utils/src-SPI_burn/main.c:285-303 | Every octet of an image up to the size of the flash goes to one place, and no two to the same |
| FlashBurn.WhenInPlace | utils/src-SPI_burn/main.c:285-303 | An octet goes to its own address if and only if that lies in the page its program starts in |
| FlashBurn.AlignedIndex | utils/src-SPI_burn/main.c:285-303 | From the start of a page on, every octet goes to its own address |
| FlashBurn.UnalignedComesRound | utils/src-SPI_burn/main.c:285-303 | From inside a page, the octets past its end are found at its front |
| FlashBurn.ProgramLoop | utils/src-SPI_burn/main.c:285-303 | The bits clear in the image are cleared in the places of its octets, nothing else changes, from any address |
| FlashBurn.BelowTwo24 | utils/src-SPI_burn/main.c:285-303 | An image that ends below 2^24 sends program commands that all arrive |
| FlashBurn.Burn | utils/src-SPI_burn/main.c:213-303 | From any address: an image larger than the flash changes nothing; otherwise the chip sees another command if and only if not all program commands arrive as such, and if they do every octet of the flash is `Burned` |
| FlashFigures.BurnedInFigures | utils/src-SPI_burn/main.c:247-303 | From the start of a page on, image octet i clears its bits at address + i in what the erase loop left, and nothing else changes |
| FlashBurn.ImageArrives | utils/src-SPI_burn/main.c:247-303 | From any address, a burn leaves the image in the flash whatever was there if and only if for each octet: where the flash is erased, the image octet that goes there is the same, or none goes there and it is 0xFF; elsewhere it is 0 and so is the one that goes there |
| FlashBurn.AlignedImageArrives | utils/src-SPI_burn/main.c:247-303 | From the start of a page, if and only if everything is erased or the image octets that go behind the rounded-up image size are all 0 |
| FlashBurn.ImageLost | utils/src-SPI_burn/main.c:247-303 | The octet 1 burned to the second sector of a flash of zeros does not arrive |
| FlashBurn.BurnAtZero | utils/src-SPI_burn/main.c:247-303 | A plain burn at address 0 leaves 0xFF up to the rounded-up size and nothing changed behind it |
| FlashBurn.FastRead | utils/src-SPI_burn/flash.c:238-260 | The octets asked for come from the flash; whole words are copied, so up to three octets more are written with what the controller's buffer held |
| FlashBurn.ReadAll | utils/src-SPI_burn/main.c:230-245 | The image read back sector by sector is the whole flash |
| SpiffsLayout.LookupPagesFit | components/fsal/spiffs/spiffs_nucleus.h:175-184 | A block has at least one lookup page and never more of them than pages |
| SpiffsLayout.PageOfEntry | components/fsal/spiffs/spiffs_nucleus.h:178-209 | A block's lookup entry stands for one page, no lookup page, which gives block and entry back; both physical address formulas agree |
| SpiffsLayout.EntryOfPage | components/fsal/spiffs/spiffs_nucleus.h:178-209 | Every page that is no lookup page is that of exactly its entry |
| SpiffsLayout.PagesInOrder | components/fsal/spiffs/spiffs_nucleus.h:175-190 | A block starts with its lookup pages, as many as two octets for each of its pages fill and one at least; its entries are the pages behind them in order |
| SpiffsLayout.AddressOfPage | components/fsal/spiffs/spiffs_nucleus.h:193-201 | A page and an offset are found again from their physical address |
| SpiffsLayout.PageOfAddress | components/fsal/spiffs/spiffs_nucleus.h:193-201 | A physical address is found again from its page and offset |
| SpiffsLayout.SpanHasEntry | components/fsal/spiffs/spiffs_nucleus.h:227-242 | A data span has an entry inside one index page, and is that page's first span plus the entry |
| SpiffsLayout.EntryHasSpan | components/fsal/spiffs/spiffs_nucleus.h:227-242 | Every entry of every index page is that of the span so computed |
| SpiffsLayout.SpansInOrder | components/fsal/spiffs/spiffs_nucleus.h:227-242 | The header page has the first (page - header) / 2 spans, every other index page the next (page - header) / 2 |
| SpiffsLayout.LastOfLookup | components/fsal/spiffs/spiffs_nucleus.h:214-221 | The erase count is the last two octets in front of a block's first entry page, the magic the two in front of those |
| SpiffsLayout.ShippedLayout | components/fsal/spiffs/spiffs_config.h:167-171 | With pages of 256 and blocks of 4096 octets: 15 entries, magic at 252, erase count at 254, and 105 and 124 spans to the index pages |
| SpiffsLayout.WhenMagicIsFree | components/fsal/spiffs/spiffs_nucleus.h:214-225 | For every geometry: no lookup entry overlaps magic or erase count if and only if a block has fewer pages than a page has entries, or the division of the two leaves a remainder at least 2 below the quotient |
| SpiffsLayout.WhenCheckPasses | components/fsal/spiffs/spiffs_nucleus.h:222-225 | With q times as many pages in a block as a page has entries and r more, the check fails exactly if q is at least 1 and q - r is 1 modulo the entries of a page |
| SpiffsLayout.WrongPass | components/fsal/spiffs/spiffs_nucleus.h:214-225 | For every geometry: the check passes although an entry overlaps if and only if q is at least 1 and at most r |
| SpiffsLayout.WrongRefusal | components/fsal/spiffs/spiffs_nucleus.h:214-225 | For every geometry: it fails although no entry overlaps if and only if q - r is at least 2 and 1 modulo the entries of a page |
| SpiffsLayout.WhenCheckIsRight | components/fsal/spiffs/spiffs_nucleus.h:214-225 | So it is right if and only if q is 0, or q - r is 1, or q - r is larger and not 1 modulo the entries of a page |
| SpiffsLayout.CheckIsExact | components/fsal/spiffs/spiffs_nucleus.h:214-225 | For powers of two the mount-time check passes if and only if magic and erase count overlap no lookup entry |
| SpiffsLayout.CheckMissesOverlap | components/fsal/spiffs/spiffs_nucleus.h:214-225 | Blocks of 48 KiB in pages of 256 octets pass the check although entries overlap |
| SpiffsLayout.CheckRefusesFree | components/fsal/spiffs/spiffs_nucleus.h:214-225 | Blocks of 4128 KiB in such pages fail it although none do |

## Left out

- Sockets beyond which one is open, packet formats, checksums, filters, scripts' environment, pid files, command
  lines and what going to the background does: only the event they produce and the message sent are modelled.
- `add_client_options` of the DHCP client: which options a message carries.
- DomainEncoder.FindOffset: requires that no octet outside the buffer is read, which holds of every buffer built by the encoder.
- DomainRoundTrip.CompressedHolds: requires every pointer written to fit into 14 bits, since the buffer need not spell the names otherwise; what is decoded then is told by DomainRoundTrip.DecodesExactly.
- DomainDecoder.DnameDec: the prefix is a string without its terminator, the buffer's length is below 2^31, and addresses have 32 bits: `len` is `unsigned`, so `dst[len - 1]` with `len` 0 is the octet in front of the text only there.
- DomainLimits.BrokenOff: tells which broken ends are accepted behind one name, not behind pointers into it.
- DhcpClientSpec.Possible: time passes in whole seconds, and a wait that is over lasted exactly as long as asked.
- DhcpClientSpec.Acknowledged: takes the answer of `arpping` as given; as shipped it never reports a conflict.
- AddressPicker.FindFreeOrExpiredNip: requires, with the hashed start, that the number of pool addresses is below 2^32, for it divides the hash.
- OptionField.AddBinaryOption: does not say what is written once the search for END has left the field.
- SimpleOption.AddSimpleOption: big-endian hosts.
- RelaySpec.RunSame: requires a clock that does not run backwards and has not wrapped.
- FlashBurn.Burn: does not say what the chip makes of a command other than the two.
- The status polling and the two generations of controller registers behind flash.c, and the protection bits: a chip
  that takes each command at once stands for them.
- SpiffsLayout.CheckIsExact: 32-bit wrap-around of addresses; structure sizes of the index headers are parameters.
- LL_DELETE2, LL_CONCAT2, LL_APPEND2, LL_REPLACE_ELEM2 and LL_PREPEND_ELEM2: easier than their doubly linked relatives.
- The `NO_DECLTYPE` variants of the list macros, the sentinel lists of listssl.h, and the loops and searches over lists.
- Memory allocation and its failure: nodes, items and buffers come from the caller or from `new`.
- The DHCPv6 client, which repeats the states of the DHCPv4 one, and all code under `#if 0`.
