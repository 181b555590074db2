# A verified model of the core of `mybittorrent`

`mybittorrent` is a small BitTorrent client written in Go (one file,
`cmd/mybittorrent/main.go`). Given a `.torrent` file, it can:

- decode bencode;
- print the torrent's metadata;
- ask the tracker for peers;
- shake hands with a peer;
- download one piece and check it against its SHA-1 hash.

This project models the core of that client in Dafny and proves properties of the model:

- **Bencode decoder** (`decoder.dfy`). `decodeString`, `decodeInteger`, `decodeList`, `parseList`, `decodeDict` and `decodeBencode`.
  - Each scanning loop of the source is a method proved equal to a recursive specification function.
  - The model keeps the source's position conventions: the last index for strings, the byte count for integers, and the distance to the closing `e` for lists.
  - It keeps the source's lax behaviour: `strconv.Atoi` accepts `-0`, `+5` and `007`; a nested `d` is decoded as a list; unknown bytes are skipped; a missing `e` is no error; decodeDict drops decodeList's error.
  - `parselaws.dfy` states what parseList makes of a list.
- **Bencode encoder** (`encoder.dfy`). `bencodeString`, `bencodeInteger`, `bencodeList` and `bencode`, including bencode's key handling (see Findings).
  - `numbers.dfy` models `strconv.Atoi` and `%d`.
  - `lexorder.dfy` models `sort.Strings`.
  - `roundtrip.dfy` and `dictroundtrip.dfy` prove that the decoder reads back what the encoder writes.
- **Piece hashes** (`pieces.dfy`). getPieces cuts the `pieces` string into 20-byte SHA-1 hashes.
- **Compact peer lists** (`peers.dfy`, BEP 23). Six bytes per peer: four octets, then the port, high byte first. The `peers` command prints all of them; `download_piece` dials the first.
- **Peer wire protocol** (`peerwire.dfy`, BEP 3).
  - The 68-byte handshake and the peer id the `handshake` command reports.
  - createPeerMessage's length-prefixed frames.
  - waitFor's scan, which skips messages until the wanted id arrives.
- **Piece download** (`download.dfy`).
  - The block-request loop: one 16 KiB request per block of the piece length.
  - The in-place assembly of `piece` messages into the piece buffer.
  - The whole `download_piece` exchange after the handshake:
    1. wait for a bitfield;
    2. send interested;
    3. wait for unchoke;
    4. send the requests;
    5. assemble the blocks;
    6. compare the SHA-1.

The peer's socket is replaced by the bytes the peer sends, in order. The messages the client writes are returned as a sequence. SHA-1 is a function parameter. Go panics are `Fail` results whose error `IsPanic()`.

Where the code departs from the BitTorrent protocol, the model follows the code:

- BEP 3 forbids leading zeros in bencoded integers and forbids `i-0e`. The code accepts whatever `strconv.Atoi` accepts: `i-0e`, `i007e` and `i+5e` all decode.
- Every block request asks for 16384 bytes, including the request for the last block of the piece. Every piece is assumed to be as long as the torrent's `piece length`.
- A `piece` message for a piece index other than the requested one makes the code panic.
- BEP 3 says a peer whose handshake carries a different info-hash is disconnected. The code never compares the info-hash in the reply.
- When the tracker's compact peer string (BEP 23) is not a multiple of 6 bytes long, the `peers` command prints the whole groups and then panics on the remainder.

## Model

| member | source | states |
|---|---|---|
| Decoder.StringAt | cmd/mybittorrent/main.go:23-39 | a decoded string lies wholly inside the input and ends at the index returned |
| Decoder.DecodeString | cmd/mybittorrent/main.go:23-39 | the colon-search loop returns the same string, index or error as StringAt, including the slice panic when there is no colon after index 0 |
| Decoder.IntegerAt | cmd/mybittorrent/main.go:45-58 | a decoded integer spans at least `ie`, ends on an `e`, and fits in 64 bits |
| Decoder.DecodeInteger | cmd/mybittorrent/main.go:45-58 | the `e`-search loop returns the same integer, byte count or error as IntegerAt |
| Decoder.ListFrom | cmd/mybittorrent/main.go:64-104 | a non-zero distance returned by the list loop points at an `e` inside the input |
| Decoder.ListAt | cmd/mybittorrent/main.go:64-104 | the distance decodeList returns is 0 or the offset of an `e` inside the input |
| Decoder.DecodeList | cmd/mybittorrent/main.go:64-104 | the loop over strings, integers, nested lists, `e` and skipped bytes gives exactly ListAt's elements, distance or first error |
| Decoder.ParseList | cmd/mybittorrent/main.go:106-126 | the pair loop gives exactly ParsedList's map or error |
| Decoder.DecodeDict | cmd/mybittorrent/main.go:128-132 | decodeDict gives DictAt's result: decodeList's non-panic errors become an empty map |
| ParseLaws.ParsedListLaws | cmd/mybittorrent/main.go:106-126 | parseList succeeds iff the list has even length with a string at every key position; any non-string key is "Key must be a string"; an odd list of string keys is an index panic; on success the map has exactly the list's keys, each with the value of its last pair |
| ParseLaws.PairsFromKeyNotString | cmd/mybittorrent/main.go:108-112 | a non-string at any key position is reported as KeyNotString, whatever precedes it |
| ParseLaws.PairsFromMissingValue | cmd/mybittorrent/main.go:114 | with string keys and odd length, reading the last value is an index panic |
| ParseLaws.PairsFromKeys | cmd/mybittorrent/main.go:107-125 | over a well-paired list, the map holds the initial keys plus exactly the remaining keys |
| ParseLaws.PairsFromKept | cmd/mybittorrent/main.go:107-125 | a key stored earlier keeps its value unless a later pair repeats it |
| ParseLaws.PairsFromLast | cmd/mybittorrent/main.go:107-125 | each key ends up with the value of its last pair |
| ParseLaws.LaterDuplicateWins | cmd/mybittorrent/main.go:115-122 | of two pairs with the same key, the later value is kept |
| ParseLaws.StoredNested | cmd/mybittorrent/main.go:114-122 | an odd nested list is stored as a list; an even one becomes its parsed map, or an empty map when parseList rejects it |
| ParseLaws.DictDropsListError | cmd/mybittorrent/main.go:128-132 | `di1xe` decodes as an empty dictionary with no error, because decodeDict drops decodeList's error |
| ParseLaws.UnterminatedList | cmd/mybittorrent/main.go:64-104 | `li1e` (no closing `e`) decodes as `[1]` with distance 0 and no error |
| ParseLaws.NestedDictIsList | cmd/mybittorrent/main.go:90-96 | a dictionary inside a list (`ld1:a1:bee`) is decoded as the list of its keys and values |
| ParseLaws.ListFromErrors | cmd/mybittorrent/main.go:64-104 | decodeList fails only with an error of decodeString or decodeInteger: a bad length, a bad integer, or a slice panic |
| ParseLaws.DecodeBencodeDispatch | cmd/mybittorrent/main.go:134-154 | decodeBencode reports "Empty input" exactly for the empty input and "Unsupported type" exactly when the first byte is no digit, `i`, `l` or `d`; a decoded value is a string, integer, list or dictionary exactly as the first byte is a digit, `i`, `l` or `d` |
| Numbers.Atoi | cmd/mybittorrent/main.go:33 | an accepted number fits in Go's 64-bit int |
| Numbers.AtoiLax | cmd/mybittorrent/main.go:56 | strconv.Atoi accepts `-0`, `007` and `+5`, and rejects the empty text and a lone sign |
| Numbers.AtoiItoa | cmd/mybittorrent/main.go:41-62 | `%d` of any 64-bit integer reads back through strconv.Atoi |
| Numbers.DecimalDigits | cmd/mybittorrent/main.go:41-62 | `%d` of a non-negative number is a non-empty digit run with that value |
| Numbers.ItoaText | cmd/mybittorrent/main.go:60-62 | `%d` writes digits, with a minus sign only in front |
| Numbers.DecimalOfDigits | cmd/mybittorrent/main.go:41-43 | `%d` writes back exactly the digits of a number that have no leading zero |
| Numbers.ItoaCanonical | cmd/mybittorrent/main.go:60-62 | `%d` never writes a leading zero, a `+` or `-0` |
| Numbers.ItoaAtoi | cmd/mybittorrent/main.go:56-62 | on text with no `+`, no leading zero and no `-0`, `%d` of what strconv.Atoi read is the text itself |
| Encoder.EncodeList | cmd/mybittorrent/main.go:480-505 | bencodeList yields "" exactly when an element is a map, and otherwise an `l`...`e` text |
| Encoder.BencodeList | cmd/mybittorrent/main.go:480-505 | the Builder loop returns EncodeList's bytes |
| Encoder.ValueBytes | cmd/mybittorrent/main.go:519-534 | a value fails with "unexpected type" exactly when it is a map |
| Encoder.EntriesAfter | cmd/mybittorrent/main.go:517-535 | the entry loop fails iff a key is missing or holds a map, always with "unexpected type", and otherwise only appends |
| Encoder.MapKeys | cmd/mybittorrent/main.go:509-514 | whatever order the map yields its keys in, the sorted slice is the same KeyOrder |
| Encoder.KeyOrderOfAnyIteration | cmd/mybittorrent/main.go:509-514 | sorting any arrangement of the padding and the keys gives KeyOrder |
| Encoder.WriteEntries | cmd/mybittorrent/main.go:516-538 | the writing loop returns DictBytes of the keys after index 4 |
| Encoder.Bencode | cmd/mybittorrent/main.go:507-539 | bencode returns Bencoded(dict) |
| Encoder.SortedKeysAreTheKeys | cmd/mybittorrent/main.go:509-514 | the canonical key order is ascending and lists each key of the map once |
| Encoder.KeyOrderSplit | cmd/mybittorrent/main.go:509-514 | after sort.Strings, the len(dict) empty strings come first and the keys follow in ascending order |
| Encoder.BencodeFourEntries | cmd/mybittorrent/main.go:509-518 | with exactly four entries, bencode writes every key in ascending order |
| Encoder.BencodeThreeEntries | cmd/mybittorrent/main.go:509-518 | with three entries, the least key is skipped |
| Encoder.BencodeTwoEntries | cmd/mybittorrent/main.go:509-518 | with two entries, only `de` is written |
| Encoder.BencodeFewerThanTwo | cmd/mybittorrent/main.go:509-518 | with fewer than two entries, `keys[4:]` is a slice panic |
| Encoder.BencodeMoreThanFour | cmd/mybittorrent/main.go:509-534 | with more than four entries (none under the empty key), an empty string reaches the loop and bencode fails with "unexpected type" |
| LexOrder.SortStrings | cmd/mybittorrent/main.go:514 | sort.Strings yields an ascending permutation of its input |
| LexOrder.SortedUnique | cmd/mybittorrent/main.go:514 | two ascending permutations of the same strings are equal, so the sort result does not depend on the input order |
| LexOrder.LexLeTotal | cmd/mybittorrent/main.go:514 | byte-wise comparison orders any two strings |
| LexOrder.LexLeTransitive | cmd/mybittorrent/main.go:514 | byte-wise comparison is transitive |
| LexOrder.LexLeAntisymmetric | cmd/mybittorrent/main.go:514 | byte-wise comparison is antisymmetric |
| RoundTrip.StringRoundTrip | cmd/mybittorrent/main.go:23-43 | decodeString reads back bencodeString(t): `t`, and the index of the last byte |
| RoundTrip.IntegerRoundTrip | cmd/mybittorrent/main.go:45-62 | decodeInteger reads back bencodeInteger(n): `n`, and the byte count |
| RoundTrip.ListRoundTrip | cmd/mybittorrent/main.go:64-104 | decodeList reads back bencodeList of map-free elements: the same elements in order, and the distance to the closing `e` |
| RoundTrip.ListAtFramed | cmd/mybittorrent/main.go:64-104 | a tag, encoded elements and `e` decode to those elements, with the `e`'s offset |
| RoundTrip.ValueBytesEncoding | cmd/mybittorrent/main.go:480-534 | bencode writes a map-free value as its encoding |
| RoundTrip.DecodeBencodeRoundTrip | cmd/mybittorrent/main.go:134-154 | decodeBencode reads back any value bencode writes without maps |
| ReEncode.StringReencodes | cmd/mybittorrent/main.go:23-43 | an input that decodes whole to a string is written back by bencodeString exactly when its length has no leading zero |
| ReEncode.IntegerReencodes | cmd/mybittorrent/main.go:45-62 | an input that decodes whole to an integer is written back by bencodeInteger exactly when its text has no `+`, no leading zero and no `-0` |
| ReEncode.NestedDictReencodedAsList | cmd/mybittorrent/main.go:90-96 | `ld1:a1:bee` decodes to a list holding a list, which bencodeList writes as `ll1:a1:bee` |
| DictRoundTrip.DictBytesRoundTrip | cmd/mybittorrent/main.go:128-132 | a dictionary written under writable keys decodes to exactly the entries of those keys |
| DictRoundTrip.CanonicalRoundTrip | cmd/mybittorrent/main.go:507-539 | the corrected encoding (every key, ascending) of a map with readable entries decodes back to that map |
| DictRoundTrip.BencodeThreeEntriesLosesLeastKey | cmd/mybittorrent/main.go:509-518 | a three-entry dictionary encoded by bencode decodes to the map without its least key, which differs from the input |
| DictRoundTrip.LeastKeyOnce | cmd/mybittorrent/main.go:514 | the least key comes first in the key order and nowhere else |
| Pieces.GetPieces | cmd/mybittorrent/main.go:362-371 | the slice has len/20 entries, and entry i is bytes 20i..20i+20 |
| Pieces.JoinedPieceHashes | cmd/mybittorrent/main.go:362-371 | joining the hashes gives back every byte except the trailing remainder |
| Pieces.PieceHashesJoined | cmd/mybittorrent/main.go:362-371 | cutting joined 20-byte hashes gives back the hashes |
| Pieces.RemainderIgnored | cmd/mybittorrent/main.go:362-371 | a trailing remainder under 20 bytes does not change the hashes |
| Peers.Port | cmd/mybittorrent/main.go:233 | `hi<<8 \| lo` is a 16-bit port whose high and low bytes are `hi` and `lo` |
| Peers.ListPeers | cmd/mybittorrent/main.go:232-234 | the print loop prints the peer of every whole 6-byte group, in order, and panics exactly when the length is not a multiple of 6 |
| Peers.FirstPeerIsFirst | cmd/mybittorrent/main.go:305 | the dialled address is the first printed peer, and it exists exactly when the list has six bytes |
| Peers.WholePeersEncoded | cmd/mybittorrent/main.go:232-233 | decoding an encoded peer list gives back the peers |
| Peers.EncodedWholePeers | cmd/mybittorrent/main.go:232-233 | re-encoding the decoded peers gives the list without its partial trailing group |
| PeerWire.CreatePeerMessage | cmd/mybittorrent/main.go:386-393 | the buffer holds the big-endian length, the id and the payload |
| PeerWire.FrameLayout | cmd/mybittorrent/main.go:386-393 | a message is 5+len bytes; its prefix reads as 1+len, byte 4 is the id, and the rest is the payload |
| PeerWire.InterestedMessage | cmd/mybittorrent/main.go:316 | the literal `0,0,0,1,2` written by the client is the interested message |
| PeerWire.WaitFor | cmd/mybittorrent/main.go:395-421 | the read loop returns WaitForFrame's payload and leftover stream, or its error |
| PeerWire.WaitForReadsFrame | cmd/mybittorrent/main.go:395-421 | waitFor reads back a createPeerMessage frame: its payload, and the bytes after it |
| PeerWire.WaitForSkipsFrame | cmd/mybittorrent/main.go:395-421 | a message with another id is skipped whole |
| PeerWire.WaitForFound | cmd/mybittorrent/main.go:395-421 | whatever waitFor returns arrived as one whole message with the wanted id, and the rest follows it |
| PeerWire.HandshakeLayout | cmd/mybittorrent/main.go:373-379 | the handshake is 68 bytes: 19, "BitTorrent protocol", 8 zero bytes, the info-hash, the client's peer id |
| PeerWire.ReplyPeerId | cmd/mybittorrent/main.go:264-277 | the `handshake` command reports a peer id exactly when the reply has at least 48 bytes: bytes 48 up to the reply's end, at most 512; an empty read is an ordinary end-of-stream error, and a reply of 1 to 47 bytes is a slice panic |
| PeerWire.ReplyHashIgnored | cmd/mybittorrent/main.go:264-277 | the reported peer id is bytes 48..68 of the reply, whatever info-hash and reserved bytes it carries |
| PeerWire.EchoedHandshake | cmd/mybittorrent/main.go:264-277 | a peer that echoes the handshake is reported with the client's own peer id |
| Download.BlockCountCeiling | cmd/mybittorrent/main.go:321 | the loop runs ceil(pieceLength/16384) times |
| Download.RequestsCover | cmd/mybittorrent/main.go:321 | every byte of the piece lies in exactly one requested block |
| Download.RequestFields | cmd/mybittorrent/main.go:322-325 | a request payload is 12 bytes: big-endian uint32 piece index, offset and 16384 |
| Download.RequestBlocks | cmd/mybittorrent/main.go:321-331 | the loop sends one request per block and counts them |
| Download.RequestsInOrder | cmd/mybittorrent/main.go:321-331 | request k is a 17-byte request message for offset 16384·k, and that offset is below the piece length |
| Download.CopyAtSlices | cmd/mybittorrent/main.go:344 | copy writes min(len(block), len-begin) bytes at `begin` and leaves the bytes before and after unchanged |
| Download.StoreBlock | cmd/mybittorrent/main.go:335-344 | a piece message is copied into the buffer at its offset; a short message, a wrong index or an offset past the end is a failure that leaves the buffer unchanged |
| Download.StoreWellFormed | cmd/mybittorrent/main.go:335-344 | a piece message with the right index and an offset inside the piece is copied in at that offset |
| Download.AssembleLength | cmd/mybittorrent/main.go:333-345 | assembly never changes the length of the piece |
| Download.AssemblePiece | cmd/mybittorrent/main.go:333-345 | the assembly loop on a zero buffer of pieceLength bytes gives Assemble's result; a negative length fails as `make` does |
| Download.AssembleRounds | cmd/mybittorrent/main.go:334-345 | rounds that each consume one message and store one block compose into the whole assembly |
| Download.PartialEnds | cmd/mybittorrent/main.go:333-345 | no block written is the zero buffer, and all blocks written is the content |
| Download.AssembleServed | cmd/mybittorrent/main.go:333-345 | when the peer answers each request in order with its block, the assembled piece is the content |
| Download.DownloadPiece | cmd/mybittorrent/main.go:315-354 | the download after the handshake sends and returns exactly what Session describes |
| Download.SessionChecked | cmd/mybittorrent/main.go:315-354 | a successful download names an existing hash, has pieceLength bytes, matches its hash, and sent interested followed by all requests |
| Download.SessionServed | cmd/mybittorrent/main.go:315-354 | with a peer that sends a bitfield, unchoke and every block in order, the download returns the content exactly when its SHA-1 matches, and otherwise fails with "unequal pieces" |

## Left out

- Command-line dispatch, file reading and writing, JSON and `fmt` output, and the debug printing of waitFor are left out; they are I/O.
- The tracker's HTTP request (getPeers) and its query encoding are left out. The model starts from the `peers` string of the tracker's reply.
- The address text `a.b.c.d:port` is not formatted. The model gives its fields as a `Peer` value.
- SHA-1 (hashInfo, `sha1.Sum`) is a function parameter of the download. The info-hash is a 20-byte input.
- Sockets are in-memory byte sequences. A read that hits the end of the input gives `StreamEnded`. The source's handleErr only prints, so the source would go on with short or zeroed buffers there; that continuation is not modelled.
- PeerWire.WaitForFrame: a keep-alive message (length 0) gives `KeepAliveFrame`. The source's `messageLength-1` would wrap to 2^32-1 and try to allocate that much, which the model does not follow.
- The handshake reply in `download_piece` is read by one `conn.Read` and never checked. The modelled stream starts after it.
- The `handshake` command reads a reply of at most 512 bytes in one `conn.Read`. ReplyPeerId gets those bytes as its input.
- ReEncode: bencodeString and bencodeInteger write back every canonical string and integer input. Other inputs are not written back: non-canonical numbers (a leading zero, `+`, `-0`), a dictionary inside a list (decoded as a list), a list of even length stored under a dictionary key (decoded as a map, which the encoder does not write), and a dictionary that does not have exactly four entries (see Findings). Lists of canonical strings, integers and lists are not proved to be written back.
- Go's `int` is 64 bits wide. Atoi and Itoa respect that range, but sums of positions in the decoder are not wrapped.
- Download.RequestBlocks: the loop condition `byteOffset < pieceLength` is read on unbounded integers. In Go, `byteOffset + BLOCK_SIZE` wraps to a negative number when the piece length exceeds 2^63 - 16384, and the loop never ends; the model stops after BlockCount(pieceLength) requests.
- The type assertions on decoded values in `main` are not modelled: `res["info"].(map[string]any)`, `pieceLength.(int)`, and `.(string)` on the pieces and peers. Neither is the ignored error of `strconv.Atoi(os.Args[5])`. The model takes the piece index and piece length as integers.
- The `info` command's hash-printing loop (main.go:203-205) is not modelled separately. Its slicing matches getPieces on a whole number of hashes. On a remainder it may panic or read the string's spare capacity, depending on how Go sized the byte slice.
- getPieces returns Go strings; the model returns byte sequences.
- A nil or other non-bencode Go value (a float, a bool) cannot occur in `Value`. Only the map case of "unexpected type" is modelled.

## Findings

| source | as written | input that shows it | evidently intended | confidence | as-written member | corrected member |
|---|---|---|---|---|---|---|
| cmd/mybittorrent/main.go:509-518 | `keys` starts with len(dict) empty strings, the keys are appended, and the loop skips the first four sorted entries | any info dictionary with three entries, e.g. `d6:lengthi1e4:name1:a12:piece lengthi1ee`: its least key `length` is not written, and the info-hash is computed over the wrong bytes | write every key of the map in ascending order | not executed | DictRoundTrip.BencodeThreeEntriesLosesLeastKey | DictRoundTrip.CanonicalRoundTrip |
