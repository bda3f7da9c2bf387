# actube: a verified model of its protocol core

actube is a CAPWAP (RFC 5415) access controller and WTP. This project models the parts of it whose
correctness does not depend on sockets or DTLS, and proves what they are for:

- **Fragmentation** (`send.dfy`, `fragman.dfy`, `reassembly.dfy`): the cutter of a message, the table
  of ten reassembly slots, and the whole way from one to the other under any arrival order.
- **Configuration** (`cfg_order.dfy`, `cfg_store.dfy`, `cfg_base.dfy`, `cfg_file.dfy`,
  `cfg_roundtrip.dfy`, `cfg_misread.dfy`, `cfg_text.dfy`): the recursive comparator of the keys, the store with
  its range iterator, the character-level parser and the printer, what survives a round trip, and how files
  with comments and quotes are read.
- **Discovery cache** (`discovery_cache.dfy`, `discovery_log.dfy`, `discovery_answers.dfy`): a ring with two search
  trees against a plain history of discoveries, and what a lookup is answered with.
- **Message sets** (`mlist.dfy`, `msgset.dfy`, `msgset_agree.dfy`, `msgset_layer.dfy`): the linked list, and
  the list, the tree and the mandatory keys that layers of definitions edit together.
- **Message elements** (`elements.dfy`, `elements_roundtrip.dfy`, `elements_seen.dfy`,
  `elements_reported.dfy`, `elements_mandatory.dfy`, `elements_defined.dfy`, `local_address.dfy`): encoding,
  the decoding walk, the rules of acceptance, what decoding depends on and what it reports, the check for
  missing mandatory elements, under any definition that a message set keeps, and the pair of local addresses.
- **Requests and sessions** (`request_window.dfy`, `send_request.dfy`, `state_table.dfy`,
  `ac_table.dfy`, `session.dfy`, `session_runs.dfy`, `session_progress.dfy`): the sequence window with its
  cached response (section 4.5.3 of RFC 5415) and the retransmitting sender, the state gate, the layered state table and the session loop
  (section 2.3 of RFC 5415).
- **Packet queue, text and checksum** (`packet_queue.dfy`, `packet_stream.dfy`, `bstr16.dfy`,
  `bstr16_text.dfy`, `saved_text.dfy`, `checksum.dfy`): the ring of packets with partial reads, binary strings as text,
  and the folded sum of section 1 of RFC 1071.

Code that changes things step by step is a class or a method with loops, proved against a function
of the old state; the properties are then lemmas about these functions. The AVL library (`mavl`) is not
part of the repository's own logic: `mavl.dfy` models it as a sorted sequence with one element of each
equivalence class. `prelude.dfy` holds the shared types. `dafny verify dfyconfig.toml` checks it all.

## Where the code does less than it seems to

Each of these is a lemma with the exact condition under which the code does what it should, or with a
concrete input on which it does not.

- The MTU is aligned to 4 bytes while offsets count 8: `Sender.PacketsTileExactlyWhenAligned`.
- Reassembly counts bytes, not coverage, so a repeated fragment can complete a message with a hole:
  `Reassembly.DuplicatesCompleteEarly`, `Reassembly.CompleteWithHole`, `Reassembly.FirstAnswer`.
- The bound before a fragment is copied lets three sizes pass the end of the buffer:
  `Fragman.GuardedCopyFits`.
- The age of a slot is not looked at when its own id comes again, so what was left of an old message mixes
  with a new one: `Reassembly.HalvesMix`.
- The iterator stops at a key that extends its base by a character below the dot:
  `CfgStore.IterationExact`; `cw_cfg_base_exists` looks at one entry only, so a value stored under just
  the key hides it, and an optional element with such a value is never sent: `CfgBase.BaseExistsExact`,
  `ElementsRoundTrip.OptionalScalarStaysBehind`.
- Values with newlines forge entries, and a store with a value that does not survive never comes back:
  `CfgRoundTrip.NewlineForges`, `CfgMisread.StoreRoundTrip`; the reader could take it, in quotes:
  `CfgText.EveryStoreHasAFile`.
- A key of 1024 characters or more is ended one byte behind its buffer: `CfgFile.KeyEndsInBuffer`.
- A second discovery from a live address and port is missing in one tree, and a later lookup of it can
  be answered with another port's entry: `DiscoveryLog.AddRefines`, `DiscoveryLog.TwinAnswers`; after 2^31 discoveries lookups by address fail: `DiscoveryLog.SignedCounter`.
- Appending a present element, or ignoring an absent one, parts list and tree: `MsgSetAgree.StepAgrees`;
  mandatory keys go stale when a later layer renames a handler: `MsgSetAgree.KeysStale`.
- Filling the packet ring before the first read loses the oldest packet:
  `PacketQueue.AddIsFifo`, `PacketQueue.OverflowOverwrites`.
- A retransmitted request can be answered with the response to an older one:
  `RequestWindow.Retransmitted`, `RequestWindow.RepeatsTheLastAnswer`; a refused response message wipes out the cached one:
  `RequestWindow.RefusedResponseClobbers`.
- An element that claims more bytes than the packet has left is passed on whole, although it is logged
  as truncated, so that its value comes from behind the packet: `ElementsSeen.PacketDecidesExactly`,
  `ElementsSeen.TakenFromBehind`.
- A mandatory element that is too long counts as found: `ElementsMandatory.FoundWithoutValue`,
  `ElementsMandatory.LongNameIsFound`; one that was not sent goes unreported when it shares its key with
  one that was, as the two local addresses do: `ElementsMandatory.UnsentUnreported`,
  `LocalAddress.Ipv4HidesIpv6`.
- A local IPv6 address is put with a length of 4, which no receiver takes: `LocalAddress.Ipv6IsMissing`.
- An old error that is not "try again" ends the sending of a request when nothing is read after the first
  copy: `SendRequest.FailsUnread`.
- A state without a timer of its own can be stuck for ever: `SessionRuns.StuckWithoutTimer`,
  `SessionRuns.JoinedIsStuck`; when the session of a silent peer ends: `SessionRuns.SilentRunExact`,
  `SessionRuns.JoinedEndsExactly`.
- UTF-8 strings that begin with `..` or `.x` are not given back: `Bstr16.TextRoundTrip`; characters in more
  bytes than they need, and surrogates, pass as UTF-8 (section 3 of RFC 3629):
  `Bstr16Text.OverlongIsAccepted`.
- The checksum of an odd number of bytes verifies without a padding byte only by chance:
  `Checksum.OddLengthExact`, `Checksum.OddLengthFails`.

## Model

| member | source | states |
|---|---|---|
| Fragman.FragTable.constructor | src/cw/fragman.c:198-206 | a new table is ten free slots |
| Fragman.FragTable.FragGet | src/cw/fragman.c:63-75 | finds the first live slot of a fragment id, or -1 when there is none |
| Fragman.FragTable.FragNew | src/cw/fragman.c:80-102 | takes the first slot that is free or expired (freeing its buffer), or none when all ten are live, and starts it empty |
| Fragman.FragTable.StorePiece | src/cw/fragman.c:167-177 | writes the payload at its offset without touching other bytes, adds its length to the counter, and on the last piece sets the needed length to its end |
| Fragman.FragTable.TakeIfComplete | src/cw/fragman.c:186-195 | hands over the buffer and frees the slot exactly when the needed length is known and reached by the counter |
| Fragman.FragTable.FragmanAdd | src/cw/fragman.c:126-196 | the slot table in place is the table of assemblies after this packet, and the buffer returned holds exactly the bytes of the completed assembly |
| Reassembly.AddExactly | src/cw/fragman.c:126-196 | a packet is refused exactly when its id is new and each slot is in use and not older than the time to live; else it counts for its id as if this were alone, one that is new beginning now; of the others only one that has expired can lose its slot |
| Fragman.Target | src/cw/fragman.c:155-163 | a packet goes to the slot of its id, else to the first usable one |
| Fragman.GuardedCopyFits | src/cw/fragman.c:167-173 | the guarded copy stays inside the buffer exactly for the packets that FragmanAdd admits |
| Fragman.CopyCanPassTheEnd | src/cw/fragman.c:167-173 | a packet that passes the guard and not the buffer |
| Sender.SendMsg | src/cw/send.c:96-162 | the loop sends exactly the packets of the cutter, in order, and stops with an error at the first one the socket does not accept |
| Sender.PacketsTileExactlyWhenAligned | src/cw/send.c:104-160 | the packets spell the message in consecutive pieces, F on all and L on the last of several, if and only if the message fits one packet or the first payload is a multiple of 8 and so are the later ones, where there are any but the last |
| Sender.PacketsFitMtu | src/cw/send.c:96-162 | every packet with its header fits the MTU, all but the last have exactly the MTU rounded down to 4, and there is one packet exactly when the message with its header has at most that size |
| Sender.AlignedFlags | src/cw/send.c:133-151 | flags F and L of every packet of a cut message |
| Sender.DecodeHeader | src/cw/send.c:134-155 | fragment id and 13-bit offset come back from the header word |
| Reassembly.FeedHolds | src/cw/fragman.c:167-177 | after any parts of one message, in any order and with repetitions: the counter is the volume fed, the buffer holds exactly the covered bytes of the message, and the needed length is 0 or the message's |
| Reassembly.CounterIsCoverage | src/cw/fragman.c:167-173 | for pairwise disjoint parts the byte counter is the size of the covered set |
| Reassembly.CompleteExactlyWhenCovered | src/cw/fragman.c:167-195 | disjoint parts in any order complete exactly when they cover every byte: never early, never late |
| Reassembly.DuplicatesCompleteEarly | src/cw/fragman.c:170-186 | a repeated part completes a message while a byte of it is still missing |
| Reassembly.CompleteWithHole | src/cw/fragman.c:170-186 | any parts, copies included, complete with a byte missing exactly when the last part came, and less is covered than the message has but no less was received |
| Reassembly.FirstAnswer | src/cw/fragman.c:126-196 | for any stream of parts the first answer comes with the first packets that complete, and fails to carry the message exactly when these leave a byte uncovered |
| Reassembly.AnyOrder | src/cw/fragman.c:126-196 | every permutation of the parts is answered with nothing until the last one to arrive, and then with exactly the message |
| Reassembly.AddKeepsDistinctIds | src/cw/fragman.c:63-102 | a packet keeps the live ids distinct and leaves every other message's slot alone unless that one has expired |
| Reassembly.ReachableDistinctIds | src/cw/fragman.c:63-102 | every table that any packets lead to has distinct live ids |
| Reassembly.Interleaved | src/cw/fragman.c:126-196 | in any mix of messages, an id of which no packet is refused and whose slot is not taken gets the answers it would get alone, whatever becomes of the others |
| Reassembly.FewIdsAreServed | src/cw/fragman.c:80-102 | at most ten ids in flight inside the time to live are all served, be the table full of expired slots |
| Reassembly.MessageSurvives | src/cw/send.c:96-162 | cut, delivered in any order among other traffic to a table that serves its id, and reassembled: the last packet to arrive is answered with exactly the message, all others with nothing |
| Reassembly.OldSlotsMakeRoom | src/cw/fragman.c:80-102 | so also at a table whose ten slots are all expired, with up to nine other ids at the same time |
| Reassembly.HalvesMix | src/cw/fragman.c:63-75 | the first part of one message and, however much later, the rest of another one of the same id make up an answer that carries neither |
| Reassembly.OversizedNeverFits | src/cw/fragman.c:167-177 | a fragment that ends behind the buffer is neither copied nor counted, but a last one sets a needed length that no fragments that fit can cover |
| CfgOrder.Cmp0IsLex | src/cw/cfg.c:21-62 | the comparator has the sign of the lexicographic order of token sequences in which digits behind a dot are one number |
| CfgOrder.Cmp0TotalPreorder | src/cw/cfg.c:21-62 | reflexive, antisymmetric in sign and transitive on all strings, and 0 exactly for equal token sequences |
| CfgStore.Cfg.Set | src/cw/cfg.c:99-123 | the tree stays sorted and becomes the one with this entry replaced; the return code tells a new key from an old one |
| CfgStore.Cfg.Get | src/cw/cfg.c:125-133 | the stored value, or the default |
| CfgStore.SetThenGet | src/cw/cfg.c:99-133 | a write is read back under every spelling of its key and changes no other key |
| CfgStore.CfgIter.constructor | src/cw/cfg.c:556-564 | the iterator starts at the first entry not below the base |
| CfgStore.CfgIter.Next | src/cw/cfg.c:567-605 | returns the entry and steps on exactly when its key is the base, or has its first dot right behind the base; else it stays |
| CfgStore.Collect | src/cw/cfg.c:567-605 | calling Next until it ends yields the accepted entries from the base on |
| CfgStore.IterationExact | src/cw/cfg.c:556-605 | over a dot-free base the iterator yields exactly the keys equal to the base or below `base.`, in order, if and only if no stored key extends the base by a character below '.', or there are no keys below `base.` |
| CfgBase.BaseExistsExact | src/cw/cfg.c:808-829 | true exactly when something extends the dot-free base by '.' or '/', the base itself is not stored, and no stored key extends it by a character below '.' |
| CfgFile.Parser.GetChar | src/cw/cfg.c:215-226 | takes the next character, or one that was put back, of the text still to be read |
| CfgFile.Parser.UngetChar | src/cw/cfg.c:228-236 | a character put back is the next one to be read |
| CfgFile.Parser.GetCharQ | src/cw/cfg.c:240-285 | quotes toggle quoting, escapes are resolved inside quotes only, and newline and end of file come through at once |
| CfgFile.Parser.SkipChars | src/cw/cfg.c:287-297 | leaves the text from the first character outside the set on |
| CfgFile.Parser.SkipToChars | src/cw/cfg.c:299-308 | leaves the text from the first character of the set on |
| CfgFile.Parser.ReadKey | src/cw/cfg.c:312-345 | the key and the text left unread are those of the key function, including the length limit; from 1024 characters on the zero behind the key is outside its buffer |
| CfgFile.KeyEndsInBuffer | src/cw/cfg.c:326-343 | the zero that ends a key stays inside its buffer exactly when the text has less than 1024 characters of a key there, and is never more than one byte outside |
| CfgFile.ValueEndsInBuffer | src/cw/cfg.c:382-421 | a value stays inside its buffer for any text |
| CfgFile.Parser.SkipToColon | src/cw/cfg.c:348-365 | finds the colon behind blanks, or reports its absence |
| CfgFile.Parser.ReadVal | src/cw/cfg.c:369-424 | the value, quoted or trimmed, and the text left unread are those of the value function |
| CfgFile.Parser.ReadLine | src/cw/cfg.c:428-445 | one entry, the end of the file or an error, and where reading goes on |
| CfgFile.ReadFromFile | src/cw/cfg.c:447-482 | the store and the number of errors after all lines of any text |
| CfgText.FillerChangesNothing | src/cw/cfg.c:312-323 | a comment ends with its line: neither it nor a blank or an empty line changes what is read |
| CfgText.LastComment | src/cw/cfg.c:312-323 | a comment without an end of line ends with the file |
| CfgText.KeyRead | src/cw/cfg.c:312-345 | keys are read as written, plain or in quotes with escapes |
| CfgText.ValRead | src/cw/cfg.c:369-424 | values are read as written behind a colon with blanks around it, plain with white space behind them or in quotes with escapes |
| CfgText.LineSets | src/cw/cfg.c:428-445 | a line written in any of these ways sets exactly its entry |
| CfgText.WholeFile | src/cw/cfg.c:447-482 | a file of printed lines, written lines, comments and empty lines sets its entries in order, without errors |
| CfgText.StoreFromFile | src/cw/cfg.c:447-534 | a store printed with comments and empty lines between its entries, or written in any of these ways, is read back as the store |
| CfgText.EveryStoreHasAFile | src/cw/cfg.c:447-482 | every store of keys of 1 to 1023 and values of up to 1024 characters is read from some file, newlines and quotes included |
| CfgText.ColonMissing | src/cw/cfg.c:348-365 | a key without its colon is an error that stops the reader and keeps what was read before |
| CfgFile.WriteToFile | src/cw/cfg.c:513-534 | prints every entry on a line of its own, with quotes around values that begin or end with white space |
| CfgRoundTrip.ValueRoundTrip | src/cw/cfg.c:369-424 | a printed value is read back if and only if it has at most 1024 characters, no newline, and no leading quote, or, where it is quoted, no quote and no live escape |
| CfgRoundTrip.KeyRoundTrip | src/cw/cfg.c:312-345 | a key of the alphabet, shorter than 1024 and not begun by '#', is read back |
| CfgRoundTrip.LineRoundTrip | src/cw/cfg.c:428-534 | a printed line read back sets exactly its entry |
| CfgRoundTrip.GoodStoreSurvives | src/cw/cfg.c:447-534 | a store of good keys and values that survive comes back without errors |
| CfgRoundTrip.EntryFitsText | src/cw/cfg.c:428-482 | reading any text whatever, every entry that ends up in the store fits into the text with its key and colon |
| CfgMisread.Leftover | src/cw/cfg.c:447-482 | what a misread line leaves unread stops the reader, is an error, opens a key outside the alphabet that stays in the store, or comes to the next line, having set only entries that fit into it |
| CfgMisread.BadLine | src/cw/cfg.c:428-534 | the entry of a line whose value does not survive is not set, whatever is left of the line |
| CfgMisread.StoreRoundTrip | src/cw/cfg.c:447-534 | any store under good keys comes back if and only if every one of its values is one that survives: what the text of one value sets never makes up for what is lost |
| CfgRoundTrip.NewlineForges | src/cw/cfg.c:513-534 | one entry whose value contains a newline is read back as two |
| DiscoveryCache.Cache.constructor | src/ac/discovery_cache.c:71-107 | an empty ring, both trees empty, counters at zero |
| DiscoveryCache.Cache.DiscoveryCacheAdd | src/ac/discovery_cache.c:109-148 | the slot at the current position leaves both trees if it is in use, is filled and enters both trees; position and 64-bit counter step on |
| DiscoveryCache.Cache.CountUp | src/ac/discovery_cache.c:109-148 | the two 32-bit halves together count discoveries modulo 2^64 |
| DiscoveryCache.Cache.DiscoveryCacheGet | src/ac/discovery_cache.c:150-231 | returns the modules of the exact match, else of the first entry for the address, and takes that one from both trees and the ring; otherwise changes nothing |
| DiscoveryLog.SockCmpOrder | src/cw/sock_cmpaddr.c:43-93 | the address comparison is a total preorder, with ports an order, on IPv4 and IPv6 addresses |
| DiscoveryLog.NodeOrders | src/ac/discovery_cache.c:43-66 | both tree comparators are total preorders on the addresses and counters that occur |
| DiscoveryLog.AddRefines | src/ac/discovery_cache.c:109-148 | adding keeps ring and both trees in step with the plain history if and only if no other live entry has the same address and port |
| DiscoveryLog.TwinAnswers | src/ac/discovery_cache.c:109-231 | after such a twin the first lookup is answered as the history answers it; the second is answered with the oldest live entry of the host instead of the twin, rightly exactly when the host has no other |
| DiscoveryLog.TwinMisanswered | src/ac/discovery_cache.c:109-231 | three discoveries and two lookups of which the second is answered with another port's entry |
| DiscoveryLog.PickRefines | src/ac/discovery_cache.c:163-215 | a lookup decides for the exact match in the history, else for the oldest live entry of the address |
| DiscoveryLog.TakeRefines | src/ac/discovery_cache.c:173-229 | what is taken leaves ring and both trees, and nothing else does |
| DiscoveryAnswers.LookupAnswers | src/ac/discovery_cache.c:150-231 | the oldest waiting discovery from the address and port, else the oldest from the host, else nothing; it is answered with its own modules and no longer waits, and nothing else changes |
| DiscoveryAnswers.AddAppends | src/ac/discovery_cache.c:109-148 | a discovery is put behind the others exactly when none that still waits has its address and port; the oldest of a full ring stops waiting |
| DiscoveryAnswers.HandedOutOnce | src/ac/discovery_cache.c:109-231 | over every run from an empty cache without twins, every answer is one of the discoveries, and none is handed out twice |
| DiscoveryLog.RunRefines | src/ac/discovery_cache.c:109-231 | over every run without such twins the cache gives the answers of the history |
| DiscoveryLog.EmptyCache | src/ac/discovery_cache.c:71-107 | a new cache stands for the empty history |
| DiscoveryLog.FoundWhileLive | src/ac/discovery_cache.c:109-231 | an entry not taken is found by its address and port exactly until as many further discoveries as the ring has slots |
| DiscoveryLog.SignedCounter | src/ac/discovery_cache.c:51-66 | a lone entry is found by its address exactly while its counter word is below 2^31 |
| MList.List.constructor | src/cw/mlist_create.c:10-26 | an empty, well linked list |
| MList.List.Append | src/cw/mlist_append.c:5-31 | adds at the end and keeps the list well linked in both directions |
| MList.List.Get | src/cw/mlist_get.c:3-12 | the first node with an equal element, or null when there is none |
| MList.List.Replace | src/cw/mlist_replace.c:5-16 | overwrites the first equal element in its place |
| MList.List.Delete | src/cw/mlist_delete.c:6-60 | removes exactly the first equal element |
| MList.List.Unlink | src/cw/mlist_delete.c:20-58 | in all four cases, only node, first, last and inner, the links, ends and count stay right |
| MsgSet.MsgData.UpdateMsgdata | src/cw/msgset.c:185-285 | list, tree and mandatory keys after a layer of definitions, on the linked list in place |
| MsgSet.MsgData.ApplyDef | src/cw/msgset.c:193-260 | one definition: skipped without a handler, else the edit of the list and of the tree that its operation asks for |
| MsgSet.MsgData.CollectKeys | src/cw/msgset.c:263-281 | the keys of the handlers of the mandatory elements, in tree order |
| MsgSetLayer.OneDefinition | src/cw/msgset.c:193-260 | a definition with a handler leaves its element, with its own mand flag, in the tree, and in the list unless it is ignored; one that deletes leaves it in neither; all other elements stay as they are |
| MsgSetLayer.LayerTree | src/cw/msgset.c:193-260 | after a layer the tree has an element exactly when the last definition for it leaves it there, with that definition's mand flag, or it was there and is not defined anew |
| MsgSetLayer.MandKeysOfLayer | src/cw/msgset.c:185-285 | a key is mandatory exactly when the last definition of an element handled with this key is mandatory and no deletion, or the element was mandatory before and is not defined anew |
| MsgSetLayer.SentAsDefined | src/cw/msgset.c:193-260 | for a message made up of definitions of different elements, each with a handler, that neither delete nor ignore, the list to be sent is these elements in the order of the definitions, each with its mand flag |
| MsgSetLayer.LastHandlerCounts | src/cw/msgset.c:296-301 | an element is handled by the last of the new handlers for its ids, else by the one it had |
| MsgSetAgree.StepAgrees | src/cw/msgset.c:215-260 | one definition keeps list and tree the same set with the same mand flags, and the list free of duplicates, if and only if it does not append a present element and ignores only what is present with the same flag |
| MsgSetAgree.LayerAgrees | src/cw/msgset.c:193-260 | a whole layer of such definitions keeps them in step |
| MsgSetAgree.ReplaceAndDeleteAgree | src/cw/msgset.c:193-260 | layers of replacements and deletions always do |
| MsgSetAgree.ReplacedMembers | src/cw/mlist_replace.c:5-16 | a replacement keeps all positions but that of the element it replaces |
| MsgSetAgree.MandKeysAre | src/cw/msgset.c:263-281 | the mandatory keys are exactly the handler keys of the mandatory elements |
| MsgSetAgree.MandKeysOfList | src/cw/msgset.c:263-281 | the same in terms of the list, where list and tree agree |
| MsgSetAgree.HandlersStay | src/cw/msgset.c:296-301 | no handler that was known is lost by loading more |
| MsgSetAgree.KeysStale | src/cw/msgset.c:263-301 | the keys kept for a message differ from those a newer handler table gives exactly when a mandatory element's handler changed its key |
| MsgSetAgree.Set.CwMsgsetAdd | src/cw/msgset.c:288-361 | handlers are loaded first, and then each message definition updates its record under the new handlers |
| MsgSetAgree.AddedKeys | src/cw/msgset.c:303-346 | a message that is mentioned gets exactly the keys of its mandatory elements under the handlers known then; all others stay as they are |
| Elements.EncodeElements | src/cw/message.c:8-61 | the buffer receives, behind one another, the wire form of every element of the list that is to be sent, and nothing else changes |
| ElementsRoundTrip.SentExactly | src/cw/message.c:8-61 | over the encoded list the walk meets, in list order, exactly the elements with a put handler and a value that are mandatory or have something below their key, each as its handler's bytes behind its header, and ends at the end |
| Elements.OutGeneric | src/cw/cw.c:39-82 | header and value of one element stand in the buffer as on the wire, with the vendor's header where it has a vendor |
| Elements.HeaderFirst | src/cw/cw.c:146-159 | the header written in front of a value is the wire form of element and vendor payload |
| Elements.Params.DecodeElement | src/cw/message.c:199-269 | what one element adds to values, mandatory keys and unrecognized places, nested vendor payloads included |
| Elements.Params.DecodeElements | src/cw/message.c:272-319 | the walk over any bytes adds what its elements add, in order |
| ElementsRoundTrip.WalkInvertsPut | src/cw/message.c:272-319 | over encoded elements the walk visits exactly these, in order, and stops exactly at the end |
| ElementsRoundTrip.WalkBound | src/cw/cw.h:278 | over any bytes it takes at least four bytes an element |
| ElementsRoundTrip.OneBack | src/cw/message.c:199-269 | an element put by the sender and accepted by the receiver yields its key and value, through the vendor wrapping where there is one |
| ElementsRoundTrip.RoundTrip | src/cw/message.c:8-319 | a receiver that takes the message's elements gets for each key sent the value of the last element sent with it and nothing else, nothing is unrecognized, and the mandatory keys seen are those of the mandatory elements sent |
| ElementsMandatory.CheckMissingMand | src/cw/cw_check_missing_mand.c:6-53 | the number of mandatory keys not found, which is 0 exactly when all are found |
| ElementsMandatory.NoneMissingExactly | src/cw/cw_check_missing_mand.c:22-29 | after an encoded message was decoded, none is reported missing exactly when for every mandatory element one with the same key was sent |
| ElementsMandatory.UnsentUnreported | src/cw/cw_check_missing_mand.c:22-29 | a mandatory element that was not sent goes unreported exactly when it shares its key with another that was |
| ElementsMandatory.DecodeAdds | src/cw/message.c:199-319 | over any bytes, a key is found exactly when a visited or wrapped mandatory element with it is not too short, has a value exactly when one with it is taken, and that value is one that was taken |
| ElementsMandatory.FoundWithoutValue | src/cw/message.c:235-264 | over any bytes, a key is found without a value exactly when a mandatory element with it is not too short, and none with it is taken |
| ElementsMandatory.NoneMissingWithoutValue | src/cw/cw_check_missing_mand.c:22-29 | so nothing is reported missing although a mandatory key has no value exactly when every mandatory key has such an element and for one of them none is taken |
| ElementsMandatory.LongNameIsFound | src/mod/capwap/capwap_actions.c:202-211 | an AC name of more than 512 bytes: nothing is reported missing, and there is no name |
| ElementsDefined.KeysAreKept | src/cw/msgset.c:263-281 | where list and tree of a definition agree, the keys kept in the record are those of the mandatory elements that are sent and checked |
| ElementsDefined.DefinedMessage | src/cw/message.c:8-319 | for a message defined by a layer that keeps list and tree in step, encoded and decoded, nothing is reported missing exactly when for each mandatory element of the definition one with its key was sent |
| LocalAddress.CwPutLocalIpAddress | src/cw/cw_put_local_ip_address.c:9-27 | puts the element of the address's family with length 4, and nothing for the other family; the last twelve bytes of an IPv6 address lie behind the element |
| LocalAddress.Ipv4HidesIpv6 | src/mod/capwap/capwap_actions.c:309-330 | with an IPv4 address the mandatory IPv6 element is not sent and goes unreported |
| LocalAddress.Ipv6IsMissing | src/mod/capwap/capwap_out_capwap_local_ip_address.c:6-28 | with an IPv6 address its element is sent, and the address reported missing |
| ElementsSeen.DecodeTreatsSeen | src/cw/message.c:272-319 | decoding any bytes is treating, one after the other, the elements as they stand in memory |
| ElementsReported.ReturnCode | src/cw/message.c:199-269 | the return code for an element: 21 for one that is unexpected or has nobody to take it, -1 for one of the wrong length, 1 for a wrapped one that somebody can handle, else 0 |
| ElementsReported.UnrecognizedExactly | src/cw/message.c:272-319 | over any bytes the places reported as unrecognized are, in order and each once, those where an element with return code 21 begins, wrapped ones not counted |
| ElementsSeen.Confined | src/cw/message.c:272-319 | where no element reaches beyond the end, nothing behind the end changes the result, for any handlers |
| ElementsSeen.DependsExact | src/cw/message.c:281-303 | bytes behind the end change the result exactly when the last element reaches beyond it and the handlers tell two of the elements apart that begin with what is left of the packet |
| ElementsSeen.WholeHeader | src/cw/message.c:281-303 | if the header is inside, they do exactly when the element is known, of an accepted length and taken, or wraps one for which this holds, or its missing bytes decide which one it wraps |
| ElementsSeen.CutHeader | src/cw/cw.h:278 | if the end cuts the header, they do exactly when one of the headers it may be is of an element that is taken, or two of them are treated differently |
| ElementsSeen.PacketDecidesExactly | src/cw/message.c:272-319 | the packet alone decides the result if and only if neither is the case |
| ElementsSeen.WellFormedExactly | src/cw/message.c:272-319 | the packet alone decides for all handlers and messages if and only if the walk stops exactly at its end |
| ElementsSeen.TakenFromBehind | src/cw/message.c:291-303 | a packet of four bytes whose element takes two bytes from behind it |
| ElementsSeen.ShortWrapper | src/mod/capwap/capwap_in_vendor_specific_payload.c:14-44 | a vendor payload too short for an element, which a handler without minimum length admits, reads six bytes all the same; they decide the return code and nothing that is found |
| ElementsRoundTrip.OptionalScalarStaysBehind | src/cw/message.c:42-48 | an optional element whose value is stored under just its key is not sent |
| RequestWindow.Conn.ProcessElements | src/cw/conn.c:327-565 | length check, unknown message, wrong role, wrong state, callback result: the new state, what is sent and how many bytes are decoded, in every case |
| RequestWindow.FindState | src/cw/conn.c:453-460 | the first row for the state before the terminating one |
| RequestWindow.Conn.ProcessMessage | src/cw/conn.c:572-637 | window, discarding and retransmission: the new state, what is sent and whether the message is processed |
| RequestWindow.FreshIsWindow | src/cw/conn.c:592-598 | a number is accepted exactly when it is 1 to 127 ahead of the last one accepted, modulo 256 |
| RequestWindow.WindowWidth | src/cw/conn.c:592-598 | the 8-bit test tells new from old exactly from 128 behind to 127 ahead |
| RequestWindow.RunIsNewer | src/cw/conn.c:572-611 | over a duplicating, reordering and losing channel inside the window exactly the requests newer than all before are processed |
| RequestWindow.OnceAndInOrder | src/cw/conn.c:572-611 | every request is processed at most once, and in increasing order |
| RequestWindow.CacheHoldsTheAnswer | src/cw/conn.c:168-279 | an answered message leaves its own response in the cache; nothing else changes the cache |
| RequestWindow.Retransmitted | src/cw/conn.c:613-637 | a repeated request is not processed again and gets its response once more if it was answered; if not, a response goes out all the same exactly when the cache holds one to an older request of the same type |
| RequestWindow.RepeatsTheLastAnswer | src/cw/conn.c:590-637 | over every run inside the window, what is answered out of the cache repeats the newest request, and gets the response to the last request that was answered: its own exactly when it was itself answered |
| RequestWindow.RefusedResponseClobbers | src/cw/conn.c:462-471 | after a response message refused in the current state, the last request's retransmission is not answered |
| RequestWindow.MovesAlongTable | src/cw/conn.c:413-549 | the state moves only where an accepted, successful request of the table leads, and the state left is remembered |
| RequestWindow.StateAfter | src/cw/conn.c:539-542 | the state becomes the one that the first row for it names, and the old one is remembered, exactly when the message is accepted, its callback returns 0 and the row names a state; otherwise both stay |
| RequestWindow.AnswerOf | src/cw/conn.c:327-565 | case by case, what a message that is not discarded is answered with, what is returned, and how many bytes are decoded |
| RequestWindow.OrderlyRunArrives | src/cw/conn.c:327-565 | a run of accepted requests along rows of the table goes through exactly the states that these rows name |
| RequestWindow.RunStaysInTable | src/cw/conn.c:327-565 | over any run consecutive states are equal or joined by the table |
| RequestWindow.WalkGetsThePacketLength | src/cw/conn.c:349-380 | the length handed to the walk is never more than the packet has, under strict headers exactly the one claimed, and only in accepted messages |
| SendRequest.CwSendRequest | src/cw/send.c:169-217 | the copies sent, all of the same message, and success, failure or timeout by the last read |
| SendRequest.IntervalResult | src/cw/send.c:191-199 | the first read that is no "try again" ends the waiting and is its result |
| SendRequest.SentUntilDecided | src/cw/send.c:185-206 | copies go out until the first interval with such a read, and never more than allowed; with an old error that is not "try again" and no read in the first interval, one |
| SendRequest.FailsUnread | src/cw/send.c:185-217 | sending fails with no read that failed exactly when such an error was left behind and nothing was read after the first copy |
| SendRequest.AnsweredOnce | src/cw/conn.c:572-637 | of all copies of a request arriving in a row the receiver processes exactly the first, and if it answers, each later copy brings the same response again |
| StateTable.Table.LoadStates | src/cw/msgset.c:363-385 | the table after the rows before the terminating one, later rows replacing earlier ones |
| StateTable.LatestWins | src/cw/msgset.c:363-385 | whatever is loaded on top of what, the last row for a transition is the one found |
| StateTable.LoadedRow | src/cw/msgset.c:363-385 | after a list was loaded the row for a transition is the last one before the terminating row, or the one there was before |
| AcStates.AcTableIs | src/mod/capwap/capwap_actions.c:827-891 | every row of the access controller's table, in both copies and with and without the vendor's layer, and that there are no others |
| StateTable.FoundIsListed | src/mod/capwap/capwap_actions.c:827-891 | every row found in the access controller's table, with or without the row for discovery and the vendor's layer, is one of the listed ones |
| Session.WtpMan.RunStateMachine | src/ac/wtpman.c:252-296 | the lookups along the jumps, the timer started by the row where they end, and that row's return value |
| Session.WtpMan.WaitForMessage | src/ac/wtpman.c:361-369 | connection state and return code after the waiting loop |
| Session.WtpMan.WtpmanMain | src/ac/wtpman.c:343-376 | all transitions looked up over a run, and whether the session has ended |
| SessionRuns.RunPath | src/ac/wtpman.c:343-376 | over all runs every transition looked up but the last of an ended session is a row that lets it go on, and each leads to the next by a jump, a message, a timeout or not at all |
| SessionRuns.AcTableOnlyListed | src/mod/capwap/capwap_actions.c:827-891 | in the access controller's table, from either copy and with or without the vendor's layer, exactly the six listed transitions let a session go on |
| SessionRuns.AcRanked | src/mod/cisco/cisco_actions.c:2727-2736 | with this table the machine cannot jump for ever |
| SessionRuns.RunNeedsAllBefore | src/ac/wtpman.c:343-376 | over all runs with the access controller's table RUN is reached only after JOIN, CONFIGURE and DATA_CHECK, in this order |
| SessionRuns.TimeoutEnds | src/ac/wtpman.c:252-296 | the lookup behind a timeout ends the session, whatever the state was |
| SessionRuns.QuietRound | src/ac/wtpman.c:361-374 | where nothing arrives a round ends in a timeout exactly when reading was tried, or had failed the last time |
| SessionProgress.WaitExact | src/ac/wtpman.c:361-369 | waiting ends with the first read that is no "try again", and only a message that succeeds moves the session, or when the timer has run out, with the return code of the last read |
| SessionProgress.RoundEnds | src/ac/wtpman.c:361-374 | a round that ends in an error, or reads nothing behind one that did, leads to a timeout; any other stays where its message put it |
| SessionRuns.SilentRunExact | src/ac/wtpman.c:343-376 | over whole runs, behind a row that lets the session go on, the session of a silent peer ends exactly when in some round but the last reading was tried before the timer ran out, or had failed before |
| SessionProgress.TimedEndsExactly | src/ac/wtpman.c:252-296 | behind a row with a timer it ends exactly when in some round but the last reading was tried before that timer's seconds were over, or had failed before |
| SessionRuns.AcSilentExact | src/mod/capwap/capwap_actions.c:827-891 | the same for every such row of the access controller's table |
| SessionRuns.StuckWithoutTimer | src/ac/wtpman.c:286-374 | a row without a timer, once the old timer has run out behind a message that was read well, is looked up for ever |
| SessionRuns.JoinedHasNoTimer | src/mod/capwap/capwap_actions.c:840-845 | the row of a WTP that has joined has no timer |
| SessionRuns.JoinedIsStuck | src/mod/capwap/capwap_actions.c:840-845 | so a session that joins when the timer has run out does not end, however many rounds there are |
| SessionRuns.JoinedEndsExactly | src/mod/capwap/capwap_actions.c:840-845 | and that of a WTP which falls silent once it has joined ends exactly when in some round but the last reading was tried before that timer ran out, or had failed before |
| SessionProgress.RunEndsExactly | src/mod/capwap/capwap_actions.c:827-891 | that of a WTP in RUN which falls silent, exactly when this happens within the echo interval, 30 seconds where nothing else is configured |
| SessionProgress.OrderlySession | src/ac/wtpman.c:343-376 | a session whose messages arrive in time and lead along the table's rows goes through exactly these states |
| SessionProgress.JoinToRun | src/ac/wtpman.c:343-376 | a WTP that joins, configures and passes the data check in time is in RUN, and its session goes on |
| PacketQueue.AddIsFifo | src/cw/conn_q_add_packet.c:28-50 | adding queues at the end, or refuses when all slots but the one read last are in use, if and only if the ring was not filled before the first get |
| PacketQueue.OverflowOverwrites | src/cw/conn_q_add_packet.c:28-50 | otherwise the new packet is delivered in place of the oldest, and the count exceeds the ring |
| PacketQueue.GetIsFifo | src/cw/conn_q_get_packet.c:22-39 | a get delivers the oldest packet and keeps the rest |
| PacketQueue.RunIsFifo | src/cw/conn_q_add_packet.c:28-50 | over every run whose first burst fits, accepted packets leave in order, none lost and none repeated |
| PacketStream.ConnQueue.AddPacket | src/cw/conn_q_add_packet.c:28-50 | the ring in place, and the stream gets the packet at its end exactly when it is not refused |
| PacketStream.ConnQueue.GetPacket | src/cw/conn_q_get_packet.c:22-39 | the ring in place after a get, and the packet |
| PacketStream.ConnQueue.RecvPacket | src/cw/conn_q_recv_packet.c:25-69 | fills the buffer with what a receive of this length takes from the stream; a peek fills it alike and leaves the stream as it is |
| PacketStream.BytesInOrder | src/cw/conn_q_recv_packet.c:25-59 | for every mix of receives, peeks and arrivals, bytes received and bytes unread are together all bytes, in order |
| PacketStream.ReceiveStaysInPacket | src/cw/conn_q_recv_packet.c:25-59 | a receive takes the buffer's length or the rest of one packet, never across its end |
| Bstr16.FormatIsUtf8 | src/cw/format_is_utf8.c:33-64 | the byte loop decides the recursive definition of the accepted byte strings |
| Bstr16Text.TextIsAccepted | src/cw/format_is_utf8.c:33-64 | any text of characters other than control characters passes as UTF-8 |
| Bstr16Text.AcceptedBytes | src/cw/format_is_utf8.c:33-64 | what passes has no control characters and no bytes above 0xF4 |
| Bstr16Text.OverlongIsAccepted | src/cw/format_is_utf8.c:33-64 | zero in two bytes and a surrogate pass as well |
| Bstr16.FormatHex | src/cw/format.c:45-61 | two lower-case digits a byte |
| Bstr16Text.HexAsNumber | src/cw/format.c:45-61 | the two digits of a byte are its value, the high one first and of lower case |
| Bstr16.ScanHexBytes | src/cw/cw_format_scan_hex_bytes.c:13-53 | the bytes written, an odd first digit being one of its own, and an error exactly when some position has no digit |
| Bstr16Text.ScanIsNumber | src/cw/cw_format_scan_hex_bytes.c:13-53 | the bytes read are, big-endian, the number that the digits are, of either case, in half as many bytes rounded up |
| Bstr16.ScanUndoesHex | src/cw/cw_format_scan_hex_bytes.c:13-53 | reading hex undoes writing it, for all byte strings, without an error |
| Bstr16.BreadText | src/cw/cw_type_bstr16.c:108-127 | the text of a binary string, within the 2 * len + 3 bytes allocated |
| Bstr16.XputBytes | src/cw/cw_type_bstr16.c:131-163 | the bytes written for a text in every one of its cases |
| Bstr16Text.EveryStringHasAText | src/cw/cw_type_bstr16.c:131-163 | every byte string has a text that is read as it, and digits behind `.x` are read as their number |
| Bstr16.TextRoundTrip | src/cw/cw_type_bstr16.c:108-163 | a binary string comes back from its text if and only if it is not UTF-8 of more than two bytes that begins with `..` or `.x` |
| SavedText.BinarySurvives | src/cw/cw_type_bstr16.c:108-163 | bytes that are not UTF-8 come back from the configuration file if and only if there are at most 511 of them, and stand for the same bytes |
| SavedText.Utf8Survives | src/cw/cw_type_bstr16.c:108-127 | the exact condition for UTF-8 |
| Checksum.LwChecksum | src/cw/lw_checksum.c:38-55 | 65535 minus the ones' complement sum of the words, with a 32-bit sum that does not overflow on the way |
| Checksum.TwoFolds | src/cw/lw_checksum.c:51-52 | two folds reach 16 bits for every sum below 2^31 |
| Checksum.FoldIsOnesSum | src/cw/lw_checksum.c:43-54 | adding up first and folding later is ones' complement addition |
| Checksum.FitsUpTo64K | src/cw/lw_checksum.c:40-49 | up to 65536 bytes cannot overflow the sum |
| Checksum.OverflowsAt64KAndOne | src/cw/lw_checksum.c:40-49 | 65537 bytes can |
| Checksum.ChecksumVerifies | src/cw/lw_checksum.c:38-55 | an even number of bytes together with their checksum sum to 65535 |
| Checksum.PaddingIsFree | src/cw/lw_checksum.c:48-49 | a zero byte behind an odd number of bytes changes no word |
| Checksum.OddLengthExact | src/cw/lw_checksum.c:48-54 | without it data and checksum verify if and only if the two bytes of the sum are the same |
| Checksum.OddLengthFails | src/cw/lw_checksum.c:48-54 | one byte for which they do not, and one for which they do |
| Checksum.AnyOrderOfWords | src/cw/lw_checksum.c:43-46 | permuting words does not change the sum |
| Checksum.OneChangedWord | src/cw/lw_checksum.c:38-55 | changing one word goes unnoticed exactly when 0 and 65535 are exchanged and another word is not 0 |
| Checksum.ByteOrderOfTheSum | src/cw/lw_checksum.c:44 | words read in the other byte order give the sum in the other byte order |

## Left out

- Sender.SendMsg: messages of 65537 to 65540 bytes, whose offsets leave the 13 bits, an MTU above 9500, for which the packet buffer is too small, and an MTU not above the header length, where the C loop does not end; the bytes of the last packet copied from behind the message but not sent.
- Fragman.FragTable.FragmanAdd: the fragments that GuardedCopyFits excludes, for which the code writes behind the buffer; overflow of the byte counter.
- Fragman.FragTable.StorePiece: the same fragments.
- Reassembly.MessageSurvives: that the sender gives different messages different fragment ids, which it does not; distinct ids are a hypothesis. The reassembled buffer has no CAPWAP header, which the caller does not know; that hand-over is not modelled.
- CfgOrder.Cmp0IsLex: numbers beyond the range of `int`, for which `atoi` is undefined; they are unbounded here.
- CfgFile.Parser.ReadLine: the position counters and the wording of errors.
- CfgFile.Parser.ReadKey: what the zero behind the buffer overwrites.
- CfgMisread.StoreRoundTrip: stores with keys that are empty, begin with '#', have 1024 characters or more, or have characters outside the key alphabet.
- CfgStore.IterationExact: bases that contain a dot.
- CfgBase.BaseExistsExact: bases that contain a dot.
- DiscoveryLog.RunRefines: runs of more than 2^31 discoveries; SignedCounter says what happens there.
- MsgSet.MsgData.ApplyDef: the operation to prepend, which the code does not treat apart; the lookup tree is a sorted sequence.
- MsgSetAgree.Set.CwMsgsetAdd: names, states and hooks of a message; message records are values and not objects in the set.
- Elements.EncodeElements: payloads that the 16-bit length field cannot hold, which the code lets run into the element number. What a handler makes of its key is a table of bytes; handlers that put several elements for one key, as the one for control addresses does, are not part of this model.
- Elements.OutGeneric: the same payloads.
- Elements.HeaderFirst: the same payloads.
- Elements.Params.DecodeElement: handlers that build their keys, elements for each radio and structures. Reading behind the packet is not stopped: memory holds some byte everywhere.
- RequestWindow.Conn.ProcessMessage: the bytes of a response; a response is its type, its sequence number and its result code.
- RequestWindow.WindowWidth: displacements of a whole cycle and more; FreshIsWindow covers them.
- Session.WtpMan.RunStateMachine: a table whose jumps form a cycle, where the code does not end.
- Session.WtpMan.WtpmanMain: the discovery loop and the DTLS handshake before it.
- StateTable.Table.LoadStates: `cw_statemachine_load_states` has the same loop over the rows in `src/ac/statemachine.c`, into a new tree that it never returns.
- PacketStream.ConnQueue.AddPacket: threads and the semaphore; adding and getting are atomic steps.
- Checksum.LwChecksum: sums of 2^31 and more, which are undefined in C.
- SendRequest.CwSendRequest: composing the request, whose errors the code compares with a value they never have; time is where an interval's reads end.
- `cw_cfg_copy`, `cw_cfg_get_next_index` and the typed getters of the store: easy members.
- DTLS, sockets, interfaces, netlink, databases, logging, shells and the web interface: foreign calls.
- Failure of memory allocation.
- The AVL tree's own balancing is not part of this model.
