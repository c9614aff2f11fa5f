# fwstitcher, modelled in Dafny

fwstitcher (`fwstitcher/fwstitcher.c` in xpwn) personalises an iOS
firmware bundle (IPSW). It reads the bundle's build manifest and builds a
TSS signing request for one device, identified by its ECID. It posts the
request to a signing server. If the reply reports `MESSAGE=SUCCESS`, it
takes each signature ("Blob") in the reply's XML and splices it into the
IMG3 file named by the entry's "Path".

This project models the core of that program and proves properties of
the model:

- `cstring.dfy` (module `CString`): NUL-terminated buffers, `strstr`, and
  `delchar`. `delchar` is an in-place `array<char>` method built from
  `strchr`, `strlen` and `memmove`. It is proved against a specification
  function, `Deleted`.
- `numerals.dfy` (module `Numerals`): the `sscanf` conversions
  createTssRequest makes. `%x` reads the chip, board and security-domain
  fields into an `int`. `%qX` reads the ECID and `%qu` writes it back in
  decimal. The scanner follows the GNU C library on a 64-bit target.
- `response.dfy` (module `TssResponse`): the `TssResponse` buffer as a
  class with `content` and `length`. `writeCallback` appends one chunk;
  curl's chunked delivery is a loop over it.
- `plist.dfy` (module `PlistValue`): plist values, and `getValueByKey` as
  the first entry with a key.
- `request.dfy` (module `TssRequest`): createTssRequest on values. It has
  one error per failing check, in the order the code makes them. It
  builds the ten fixed request entries and moves the identity's
  `Manifest` entries to the end of the request.
- `plist_arena.dfy` (module `PlistArena`): the same move as link updates
  on an arena of doubly-linked plist nodes. This covers the tail walk,
  the link and the unlink. The code as written and the corrected code
  are modelled separately.
  `TssRequest.MoveFaults` states, on entry sequences, the condition on which
  `PlistArena.Plist.RelocateAsWritten` faults on the arena: the Manifest
  dictionary is empty, or its node is the identity's first or last. The two
  are matched by construction, with the identity's entries in the order of
  its linked nodes.
- `img3.dfy` (module `Img3Splice`): replaceImg3Signature on an arena of
  IMG3 elements. New elements are read until their declared sizes cover
  the signature. The element before `shsh` is pointed at the first new
  element, and the image is marked dirty.
- `firmware.dfy` (module `Firmware`): what main and createTssFirmware
  decide from the reply. This covers the success gate, the start of the
  XML document, the filter over response entries, the blob clean-up, and
  how a run ends.

An ECID wider than 64 bits is not rejected: `sscanf("%qX")` saturates it
to 2^64 - 1 and the request goes out with that value;
`Numerals.EcidSaturates` states it.

## Model

| member | source | states |
|---|---|---|
| CString.StrStr | fwstitcher/fwstitcher.c:254 | strstr: None exactly when the needle occurs nowhere in the string; otherwise the position of its first occurrence |
| CString.StrChr | fwstitcher/fwstitcher.c:350 | strchr from a position: the first `c` before the terminator, with no NUL or `c` before it; None when the rest of the string has no `c` |
| CString.Length | fwstitcher/fwstitcher.c:351 | strlen from a position equals the length of the C string starting there |
| CString.ShiftLeft | fwstitcher/fwstitcher.c:351 | memmove one place left: the window takes the characters to its right and nothing else changes |
| CString.DeleteAt | fwstitcher/fwstitcher.c:350-351 | removing the `c` that strchr found advances the loop state past it, with the kept prefix now ending at the found position |
| CString.Turn | fwstitcher/fwstitcher.c:350-351 | one loop turn either ends with the final buffer (no `c` left) or makes progress and keeps the loop invariant |
| CString.DelChar | fwstitcher/fwstitcher.c:349-353 | delchar leaves exactly `Deleted(old buffer, c)`: the string without `c`, NULs up to the old terminator, the tail untouched |
| CString.Deleted | fwstitcher/fwstitcher.c:349-353 | the buffer delchar leaves keeps the buffer's size |
| CString.DeletedString | fwstitcher/fwstitcher.c:349-353 | the buffer keeps its size and its string is the old string with every `c` removed |
| CString.DeletedIdempotent | fwstitcher/fwstitcher.c:349-353 | a second delchar with the same character changes nothing |
| Numerals.SkipSpace | fwstitcher/fwstitcher.c:142 | the leading characters skipped are white space and the rest starts with a non-space |
| Numerals.HexRun | fwstitcher/fwstitcher.c:142 | the digits converted are the longest prefix of hex digits |
| Numerals.ToULL | fwstitcher/fwstitcher.c:142 | strtoull's result: 0 without digits, 2^64 - 1 beyond 64 bits, the value, or its negation modulo 2^64 |
| Numerals.HexField | fwstitcher/fwstitcher.c:115 | `%x` into an int: a 32-bit signed value congruent to the scanned value modulo 2^32 |
| Numerals.ScanHex | fwstitcher/fwstitcher.c:115 | the characters a `%x` or `%qX` conversion converts are hex digits |
| Numerals.EcidValue | fwstitcher/fwstitcher.c:142 | the value `%qX` stores is below 2^64 |
| Numerals.EcidString | fwstitcher/fwstitcher.c:136-144 | the ECID string in the request is made of decimal digits |
| Numerals.Decimal | fwstitcher/fwstitcher.c:143 | `%qu` output is a non-empty run of decimal digits |
| Numerals.HexFieldDigits | fwstitcher/fwstitcher.c:115 | any field of hex digits below 2^32, in either case, with leading zeros or a `0x` prefix, reads as its value, or as the value - 2^32 from 2^31 up |
| Numerals.HexFieldRoundTrip | fwstitcher/fwstitcher.c:124 | a field written as the hex digits of v < 2^32 reads back as v, or as v - 2^32 from 2^31 up |
| Numerals.HexFieldEmpty | fwstitcher/fwstitcher.c:70-73 | text with no hex digits leaves the field and the ECID at their initial 0 |
| Numerals.EcidRoundTrip | fwstitcher/fwstitcher.c:142-143 | for every 64-bit v, the hex digits of v scan back to v, the request carries the decimal digits of v, and those parse back to v |
| Numerals.EcidDigits | fwstitcher/fwstitcher.c:142-143 | any ECID of hex digits below 2^64, in either case, with leading zeros or a `0x` prefix, scans to its value, and the request carries that value in decimal, which parses back to it |
| Numerals.EcidPrefixed | fwstitcher/fwstitcher.c:142 | the same value is read with a `0x` prefix |
| Numerals.EcidSaturates | fwstitcher/fwstitcher.c:142-143 | hex digits worth 2^64 or more are read as 2^64 - 1, which is rendered into the request |
| Numerals.EcidFits | fwstitcher/fwstitcher.c:136-143 | the decimal ECID has at most 20 digits, so with its NUL it fits the 64-byte buffer and snprintf never truncates |
| Numerals.DecimalRoundTrip | fwstitcher/fwstitcher.c:143 | `%qu` output parses back to the value it renders |
| Numerals.DecimalCanonical | fwstitcher/fwstitcher.c:143 | `%qu` output has no leading zero except for 0 itself |
| Numerals.DecimalInjective | fwstitcher/fwstitcher.c:143 | distinct values render as distinct decimal strings |
| TssResponse.Response.Allocated | fwstitcher/fwstitcher.c:218-219 | the buffer as allocated: length 0 and one character of unknown content |
| TssResponse.Response.constructor | fwstitcher/fwstitcher.c:218-219 | the corrected allocation: an empty reply that is already NUL-terminated |
| TssResponse.Response.WriteCallback | fwstitcher/fwstitcher.c:241-251 | returns size * nmemb modulo 2^64; a non-empty chunk is appended to the reply and the buffer is terminated again; an empty chunk changes nothing |
| TssResponse.Response.Deliver | fwstitcher/fwstitcher.c:232 | the reply is the concatenation of the chunks in order, and is terminated once any character has arrived |
| TssResponse.EmptyReplyUnterminated | fwstitcher/fwstitcher.c:219 | a reply with no characters leaves the buffer as allocated, which need not be a C string |
| PlistValue.FirstIndex | fwstitcher/fwstitcher.c:91 | the position of the first entry with the key, or None exactly when no entry has it |
| PlistValue.Lookup | fwstitcher/fwstitcher.c:91 | getValueByKey: Some exactly when an entry has the key, with the value of the first entry that has it |
| PlistValue.FoundAt | fwstitcher/fwstitcher.c:91 | an entry with the key and no earlier entry with it is the one getValueByKey returns |
| PlistValue.RemoveAt | fwstitcher/fwstitcher.c:184-186 | unlinking one entry keeps every other entry in order |
| PlistValue.LookupRemoveOther | fwstitcher/fwstitcher.c:184-188 | after the Manifest entry is unlinked, every other key is still found with the same value |
| TssRequest.Identity | fwstitcher/fwstitcher.c:91-101 | the restore identity is element 0 of the BuildIdentities array, and it is found whenever that array is non-empty and its element 0 is a dictionary |
| TssRequest.StringField | fwstitcher/fwstitcher.c:109-116 | a string field is present exactly when its key holds a string |
| TssRequest.DataField | fwstitcher/fwstitcher.c:103-107 | UniqueBuildID is present exactly when its key holds data |
| TssRequest.DictField | fwstitcher/fwstitcher.c:160-164 | Manifest is present exactly when its key holds a dictionary |
| TssRequest.FixedEntries | fwstitcher/fwstitcher.c:147-157 | the ten request entries, with their keys in the order the code adds them |
| TssRequest.CreateTssRequest | fwstitcher/fwstitcher.c:69-200 | a failure names a check that fails, and every check made before it passes |
| TssRequest.SucceedsIffComplete | fwstitcher/fwstitcher.c:77-164 | with the corrected Manifest move, a request is built exactly when the manifest holds every value the code reads |
| TssRequest.CompleteWhenFound | fwstitcher/fwstitcher.c:91-164 | a parsed manifest whose restore identity holds every field the code reads passes every check |
| TssRequest.ManifestFirstFaults | fwstitcher/fwstitcher.c:175-185 | a manifest that passes every check but whose `Manifest` entry is first makes the move as written fault |
| TssRequest.RequestLayout | fwstitcher/fwstitcher.c:146-188 | with the corrected Manifest move, the request is the ten fixed entries (ECID and hex fields converted) followed by the Manifest entries in order; the identity loses exactly its Manifest entry |
| PlistArena.LinkedAppend | fwstitcher/fwstitcher.c:175-181 | linking the last node of one list to the head of a disjoint list gives one list of both |
| PlistArena.LinkedRemove | fwstitcher/fwstitcher.c:184-186 | relinking a node's neighbours around it leaves the list without that node |
| PlistArena.Plist.Tail | fwstitcher/fwstitcher.c:166-173 | the walk ends at the last node of the request's list, or NIL for an empty list |
| PlistArena.Plist.LinkAfter | fwstitcher/fwstitcher.c:175-181 | the Manifest's entries follow the request's entries; the identity's list keeps its links |
| PlistArena.Plist.UnlinkAt | fwstitcher/fwstitcher.c:184-186 | the identity's list loses its Manifest node, first and last positions included; the request's list is untouched |
| PlistArena.Plist.Relocate | fwstitcher/fwstitcher.c:166-188 | the request's list becomes its entries followed by the Manifest's, the identity's list loses the Manifest node, and unrelated nodes keep their links |
| PlistArena.Plist.RelocateAsWritten | fwstitcher/fwstitcher.c:175-186 | the code as written faults exactly when the Manifest is empty or is the identity's first or last entry; otherwise it gives the state Relocate gives: the two lists, with every other node's links and every other dictionary's head unchanged |
| PlistArena.ManifestAloneFaults | fwstitcher/fwstitcher.c:184-186 | an identity whose only entry is Manifest makes the code as written fault |
| PlistArena.ManifestAloneMoved | fwstitcher/fwstitcher.c:166-188 | on that identity the corrected move puts the one firmware entry in the request and empties the identity |
| Img3Splice.Img3.ReadElements | fwstitcher/fwstitcher.c:330-337 | elements are read until their sizes first reach the signature's length; they are appended to the arena and linked in the order read, the last one to nothing |
| Img3Splice.Img3.Predecessor | fwstitcher/fwstitcher.c:339-342 | the walk from `data` stops at the element just before `shsh` |
| Img3Splice.Img3.ReplaceSignature | fwstitcher/fwstitcher.c:327-347 | the chain from `data` runs up to the element before `shsh` and then through the new elements only; no other old element changes its link; the image is dirty |
| Img3Splice.SplicedPath | fwstitcher/fwstitcher.c:345 | redirecting one link joins the old chain's prefix to the run of new elements |
| Firmware.SigningSucceeded | fwstitcher/fwstitcher.c:52 | the gate holds exactly when MESSAGE=SUCCESS occurs in the reply's string |
| Firmware.XmlDocument | fwstitcher/fwstitcher.c:254-258 | None exactly when the reply has no `<?xml`; otherwise the reply from its first `<?xml` on |
| Firmware.Pick | fwstitcher/fwstitcher.c:281-290 | a used entry yields its key and the Path and Blob values stored under it |
| Firmware.Eligible | fwstitcher/fwstitcher.c:275-287 | an entry is used exactly when it is a dictionary whose Path and Blob are strings |
| Firmware.Selected | fwstitcher/fwstitcher.c:271-287 | the walk yields at most one signature per entry, and one for each when every entry is used |
| Firmware.SelectEntries | fwstitcher/fwstitcher.c:271-287 | the walk yields exactly the signatures of the dictionaries holding Path and Blob, in reply order |
| Firmware.SelectedSound | fwstitcher/fwstitcher.c:275-287 | every signature yielded comes from an entry that passed both checks |
| Firmware.SelectedComplete | fwstitcher/fwstitcher.c:275-287 | every entry that passes both checks yields its signature |
| Firmware.SelectedAppend | fwstitcher/fwstitcher.c:271-287 | the filter keeps reply order: the result for two stretches of entries is the result for the first, then for the second |
| Firmware.Cleaned | fwstitcher/fwstitcher.c:294-295 | the blob has no tab and no newline, and every other character keeps its count |
| Firmware.CleanedEitherOrder | fwstitcher/fwstitcher.c:294-295 | deleting newlines before tabs leaves the same blob |
| Firmware.StripBlob | fwstitcher/fwstitcher.c:294-295 | the two delchar calls leave the blob's string without tabs and newlines |
| Firmware.Run | fwstitcher/fwstitcher.c:44-57 | no request is sent exactly when the manifest is incomplete, and the error reported is that of the first check that fails; the run faults exactly when a complete manifest meets the NULL dereference of the Manifest move as written; otherwise a missing reply, a reply buffer without a terminator, a reply without MESSAGE=SUCCESS and a reply without `<?xml` each end the run with their own outcome, exactly in those cases; stitching starts exactly when none of these happened and the reply holds both MESSAGE=SUCCESS and `<?xml` |
| Firmware.ManifestFirstRun | fwstitcher/fwstitcher.c:175-185 | the complete manifest whose `Manifest` entry is first ends every run in the fault, whatever the ECID and the reply |

## Left out

- The network. sendTssRequest (fwstitcher.c:203-239) and its curl calls are not modelled. The reply is a parameter of `Firmware.Run`, and its delivery is the chunk sequence given to `TssResponse.Response.Deliver`.
- The zip archive (loadZipFile, getFileFromOutputState, addToOutput, writeOutput, the temporary file). The build manifest is a `ManifestFile` parameter.
- Plist parsing and serialising (createDictionaryFromAbstractFile, createRoot, getXmlFromRoot). Values are given already parsed. The failure of createRoot on the reply (fwstitcher.c:260-264) is therefore not an outcome of `Firmware.Run`.
- base64_decode_alloc and readImg3Element. The signature's element sizes are given as a sequence, and a failing read is not modelled.
- The outer `while (in_state != NULL)` loop of createTssFirmware and the per-file stitching after the signature is spliced. These depend on the zip state.
- Memory management: malloc failure, free, and the realloc size `length + total + 1` wrapping in size_t. A failed malloc of the ECID buffer (fwstitcher.c:137-139) would leave ApECID NULL; the model always has the buffer.
- `signature->seek` (fwstitcher.c:344) moves a file position only and has no counterpart.
- `int i` in replaceImg3Signature (fwstitcher.c:332-334) would overflow for a signature of 2^31 bytes or more. The model sums sizes without bound.
- TssRequest.StringField: the C code casts `getValueByKey` results without checking their type (fwstitcher.c:91, 97, 103, 109, 118, 127, 160, 281-282). A Path, Blob, ApChipID, ApBoardID or ApSecurityDomain that is not a string, a UniqueBuildID that is not data, a BuildIdentities that is not an array, an element 0 of it that is not a dictionary, or a Manifest that is not a dictionary is read as something else. The model treats each of these as missing.
- TssRequest.Identity: an empty BuildIdentities array is read out of bounds at fwstitcher.c:97. The model reports it as a missing restore identity.
- TssRequest.CreateTssRequest: the code builds the fixed entries before it looks up Manifest (fwstitcher.c:147-164). The model checks Manifest first. Nothing observable differs, because the half-built request is dropped.
- TssRequest.CreateTssRequest: builds the request with the corrected Manifest move, so it succeeds on the manifests on which the code as written dereferences NULL (`TssRequest.MoveFaults`). `Firmware.Run` reports that fault.
- Firmware.Run: its `Faulted` outcome uses `TssRequest.MoveFaults`, which matches `PlistArena.Plist.RelocateAsWritten` by construction. No lemma maps the arena's linked lists to the entry sequences of module `TssRequest`.
- TssRequest.SucceedsIffComplete: states the corrected Manifest move. The code as written builds no request for a complete manifest whose Manifest dictionary is empty, or whose Manifest entry is the identity's first or last; it faults instead.
- TssRequest.RequestLayout: states the corrected Manifest move, as for TssRequest.SucceedsIffComplete.
- Img3Splice.Img3.ReadElements: requires the declared sizes to add up to at least the signature's length, which is what ends the loop. readImg3Element is not part of this model. An element that declares size 0 leaves `i` unchanged (fwstitcher.c:334); if the reader does not move past such an element, the loop never ends on that reply. A signature whose elements fall short of its length makes the C code read past its end.
- Img3Splice.Img3.ReplaceSignature: the same requirement on the declared sizes as Img3Splice.Img3.ReadElements, with the same consequence.
- Numerals.HexField: assumes an LP64 target (32-bit `int`, 64-bit `unsigned long long`).
- CString.DelChar: requires `c` to be other than NUL. With NUL, strchr finds the terminator and the C loop never ends. The callers pass only tab and newline.
- Img3Splice.Img3.Predecessor: requires `shsh` to follow `data` on the element chain. Otherwise the C walk runs off the end of the list.
- TssResponse.Response.WriteCallback: requires the chunk to hold at least `size * nmemb` characters, as curl guarantees.

## Findings

| source | as written | input that shows it | evidently intended | confidence | as-written member | corrected member |
|---|---|---|---|---|---|---|
| fwstitcher/fwstitcher.c:175-186 | writes `firmware->prev`, `current->prev->next` and `current->next->prev` with no NULL checks | an identity whose only entry is Manifest, holding one entry; the same happens for an empty Manifest, or a Manifest that is the identity's first or last entry | move the Manifest entries and unlink the Manifest node wherever it stands | not executed | PlistArena.Plist.RelocateAsWritten, PlistArena.ManifestAloneFaults, TssRequest.ManifestFirstFaults, Firmware.Run, Firmware.ManifestFirstRun | PlistArena.Plist.Relocate, PlistArena.Plist.UnlinkAt, PlistArena.ManifestAloneMoved, TssRequest.CreateTssRequest, TssRequest.SucceedsIffComplete, TssRequest.RequestLayout |
| fwstitcher/fwstitcher.c:219 | `content = malloc(1)` leaves its one byte uninitialised; only writeCallback writes a terminator | a failed transfer, whose result curl_easy_perform returns and the code ignores (fwstitcher.c:232), or a reply with an empty body: writeCallback is never called, and main then runs strstr on the buffer (fwstitcher.c:52) | allocate the empty reply already NUL-terminated | not executed | TssResponse.Response.Allocated, TssResponse.EmptyReplyUnterminated, Firmware.Run | TssResponse.Response.constructor |
