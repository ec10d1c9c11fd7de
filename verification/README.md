# Proofs about capture archives and passive SSH recovery

A Dafny model of the byte-level code of the repository, with proofs of what that code is for. It covers five pieces:

- **The MinARX codec** (`minarx/`). TCP segments become direction-labelled chunks, chunks become TLS records, records become a layout stream and a separate opaque stream, and both go into a container. The decoder walks the two streams in lockstep and writes a synthetic trace. The main result is idempotence: compacting what was materialized, written and observed again gives the same bytes.
- **The policy archive** (`archive_policy.py`), a second implementation of de-duplication, record splitting, wire encoding and trace synthesis. Each is proved on its own and against the first, with the exact condition under which the two agree.
- **QUIC demultiplexing** (`decryptor/quic/`): varints, coalesced packets, frames, and CRYPTO data that arrives out of order.
- **SSH recovery over several epochs** (`decryptor/core/ssh_crypto.py`, `decryptor/ssh/`). The end-to-end results say exactly when recovery succeeds, and what any success certifies.
- **Checksums and frames** of the synthetic captures.

## How to read it

Bytes are `seq<Byte>` with `Byte` the naturals below 256. An exception is an `Err` that names its Python class. Code that loops or updates state is a method with the source's variables, proved equal to a specification function; the results are lemmas about those functions. `Binary.Reader`, the oracle server and the oracle client are classes. `hide` statements in proofs only shorten the solver's work.

| file | source |
|---|---|
| `Bytes`, `Binary` | `minarx/binary.py` |
| `Chunks`, `TcpSegments`, `TcpTrace`, `Checksum`, `Frames`, `SyntheticCapture` | `minarx/pcap.py`, and the frames of `archive_policy.py` |
| `TlsRecords`, `TlsCodec`, `TlsArchive`, `TlsAccounting`, `ChunkCodec`, `Envelope` | `minarx/protocols/common.py` |
| `Container` | `minarx/format.py`, `minarx/archive.py` |
| `MinarxPipeline` | the whole MinARX path |
| `Handshakes` | `minarx/protocols/common.py`, `decryptor/tls12/derive_rsa.py` |
| `PolicyArchive`, `PolicyRecords` | `archive_policy.py` |
| `QuicVarint`, `QuicPackets`, `QuicFrames`, `QuicCrypto` | `decryptor/quic/derive_quic.py` |
| `SshWire`, `SshNegotiation`, `SshKeys`, `SshCipher` | `decryptor/core/ssh_crypto.py`, `minarx/protocols/ssh.py`, `decryptor/core/tls12_crypto.py` |
| `SshOracle`, `SshRecovery`, `SshSessions`, `SshAccounting`, `SshExample` | `decryptor/ssh/` |

Cryptography and compression are parameters. Their hypotheses are predicates: `Container.Sound` (decompression undoes compression within the size limit, digests have 32 bytes), `SshCipher.Correct` (the key stream keeps lengths and undoes itself, tags have 16 bytes), `SshKeys.FixedOutput` and `SshKeys.FixedMac` (fixed non-empty output), and `SshSessions.Discerning` (where a secret is not minimal, the epoch's host signature does not happen to be valid for the one other hash the code then computes; of a minimal secret nothing is asked, and `SshSessions.MinimalSessionRecovered` does without it). `SshExample` shows that the SSH hypotheses, those about the clear openings included, can all be met at once, by a session that is recovered from its two byte streams and by one that is refused.

## What the proofs found

- `compute_exchange_hash` keeps a leading zero of the shared secret that `encode_ssh_mpint` strips. Recovery of a session therefore fails at the host signature in the first epoch whose secret starts with a zero byte not needed for the sign, and only there (`SshSessions.SessionRecoveredExactly`; a whole session with a 32-byte secret: `SshExample.ToySessionRefused`).
- The varint reader accepts encodings with superfluous zero septets; the writer never produces them (`Binary.AcceptedUVarintIsCanonical`).
- `clear_handshake_messages` goes on after a ChangeCipherSpec and reads a protected Finished as a message; `_handshake_messages_from_stream` stops. The two agree exactly when the later handshake-typed bytes complete no message (`Handshakes.HandshakeParsersAgree`).
- `clear_handshake_payload_bytes` counts every record of type 22, protected ones included; it is what its name says exactly when every protected one is empty (`TlsAccounting.HandshakeCounterExactly`).
- The MinARX writer's client port is 49152. With a server on that port, client segments come back as the server's (`MinarxPipeline.FramesReobserved`). The policy writer moves its port.
- The two extractors label a segment differently when both its ports are the server's, and only then (`PolicyArchive.LabellingsAgree`). On the rows of such a connection they then give different chunks whenever they give any (`PolicyArchive.ExtractionsAgreeExactly`).
- The three counts that end an ACK of type 0x03 are read as frames; the frame is passed over exactly when all three are zero (`QuicFrames.EcnAckExactly`).
- `setdefault` keeps the first CRYPTO frame at an offset, so what a longer retransmission there adds is lost unless the first frame at some other offset holds it (`QuicCrypto.DictionaryCompleteExactly`).
- With an explicit compression choice a layout near the limit can be written and then refused by the reader (`Container.DefaultLimitSuffices`, `Container.WrittenButRefused`).
- An ACK frame with fewer ranges than it counts makes the frame walk raise, and CRYPTO frames already found in that payload are lost with it (`QuicFrames.WalkEndsExactly`).
- The accounting mismatch that `compact_capture` checks for never occurs (`TlsAccounting.OpaqueTotalsMatch`, `ChunkCodec.OpaqueTotalsMatch`).

## Model

| member | source | states |
|---|---|---|
| Binary.EncodeUVarint | minarx/binary.py:15-23 | the loop yields the little-endian septet encoding of the value; a negative value is refused |
| Binary.Reader.NextByte | minarx/binary.py:31-36 | the byte at the cursor and a cursor one further, or a decode error and no movement |
| Binary.Reader.NextUVarint | minarx/binary.py:38-49 | result and cursor equal the reading function on what is left, over all ten turns, the limit and both error exits |
| Binary.Reader.Take | minarx/binary.py:51-56 | exactly the next `length` bytes and the cursor past them, or a decode error and no movement |
| Binary.Reader.NextBlob | minarx/binary.py:58-59 | a length-prefixed field and the cursor past it; on an error the cursor is where the failing read left it |
| Binary.Reader.Finish | minarx/binary.py:61-63 | succeeds exactly at the end of the data |
| Binary.ReadsFailExactly | minarx/binary.py:31-59 | when a byte or a field cannot be read, and that every failure of the reader is a decode error |
| Binary.UVarintRoundTrip | minarx/binary.py:15-49 | a written varint is read back, consuming exactly its bytes, if and only if the value is within the limit |
| Binary.BlobRoundTrip | minarx/binary.py:51-67 | the same for blobs, whatever follows them |
| Binary.AcceptedUVarintIsCanonical | minarx/binary.py:38-49 | an accepted varint is the writer's own encoding if and only if it has no superfluous zero septet |
| Binary.OverlongZeroAccepted | minarx/binary.py:38-49 | a concrete two-byte encoding of zero that the reader accepts and the writer never produces |
| TlsRecords.SplitTlsRecords | minarx/protocols/common.py:20-44 | the nested loops compute the specification Split: records in completion order, errors for an overlong length and for trailing bytes |
| TlsRecords.DrainAppend | minarx/protocols/common.py:25-41 | draining a longer buffer yields what the shorter one yields and then the rest, and an error is never repaired |
| TlsRecords.DrainConserves | minarx/protocols/common.py:27-41 | drained records put back on the wire, followed by the pending bytes, are the bytes consumed |
| TlsRecords.DrainSerialised | minarx/protocols/common.py:27-41 | well-formed records written one after another are read back, whatever follows |
| TlsRecords.StreamsDecide | minarx/protocols/common.py:20-44 | acceptance, records and pending bytes of each direction are those of its concatenated bytes |
| TlsRecords.ResegmentationInvariance | minarx/protocols/common.py:20-44 | captures with the same per-direction bytes are accepted or refused together and give the same per-direction records |
| TlsRecords.CompletionOrder | minarx/protocols/common.py:23-40 | the records of a shorter capture are the first records of every longer one |
| TlsRecords.SplitConserves | minarx/protocols/common.py:20-44 | an accepted capture is whole well-formed records in each direction and nothing more |
| TlsRecords.SplitAccepts | minarx/protocols/common.py:20-44 | any interleaving and segmentation of two serialised record lists is accepted and gives those lists back |
| TlsRecords.SplitIgnoresCoalescing | minarx/protocols/common.py:20-44 | coalescing chunks changes neither the records nor their order |
| TlsCodec.EncodeTlsRecords | minarx/protocols/common.py:47-97 | layout, opaque bytes and all seven counters of a capture, from the loop with its two protection flags |
| TlsCodec.DecodeTlsRecords | minarx/protocols/common.py:100-130 | the lockstep decoder equals its specification on every layout and opaque stream, with the error that comes first, and on success leaves the shared opaque cursor where the specification says |
| TlsCodec.OpaqueExactly | minarx/protocols/common.py:55-84 | a record is protected if and only if its type is 23 or an earlier record of its own direction has type 20 |
| TlsCodec.RecordBytes | minarx/protocols/common.py:11-14 | every record's layout bytes from its numbers: one tag byte for a known type and version, the unknown ones spelled out after it, then the length and, where clear, the fragment |
| TlsArchive.RecordRoundTrip | minarx/protocols/common.py:56-84 | one encoded record is decoded to its wire bytes from both streams, whatever follows in either |
| TlsArchive.RecordsRoundTrip | minarx/protocols/common.py:56-130 | the same for every record list, the protection state at encoding time being irrelevant to the decoder |
| TlsArchive.RefusedRecords | minarx/protocols/common.py:104-129 | reserved type codes 5 and 6 and version codes 4 to 6 are refused whatever follows; an accepted record's length field is right and at most 18432 |
| TlsArchive.ArchiveFails | minarx/protocols/common.py:100-170 | whatever is wrong with a TLS archive, the failure is a decode error |
| TlsArchive.CompactTls | minarx/protocols/common.py:133-149 | layout, opaque stream and the measurements of every capture in order; the one error is that some capture does not split |
| TlsArchive.MaterializeTls | minarx/protocols/common.py:152-170 | the loop over captures equals its specification, including the count, both final cursor checks and every error |
| TlsArchive.TwoCursorRoundTrip | minarx/protocols/common.py:100-170 | materializing a compacted archive succeeds if and only if it is within 32 captures, ten million records and 2 GiB of layout each; then every capture's records come back in completion order and the layout reader, every nested reader and the opaque reader are exhausted |
| Envelope.ArchiveRoundTrip | minarx/protocols/common.py:161-170 | the same law for any capture codec that undoes its parts, which the TLS and the chunk codec both instantiate |
| TlsAccounting.OpaqueContentCannotInfluenceSize | minarx/protocols/common.py:55-84 | captures equal in directions, types, versions, lengths and clear fragments have byte-identical layouts and equally long opaque streams |
| TlsAccounting.TransportAccounted | minarx/protocols/common.py:85-97 | transported bytes are removed headers plus protected plus clear bytes, and the protected count is the opaque length |
| TlsAccounting.HandshakeCounterExactly | minarx/protocols/common.py:81-94 | the counter named after clear handshake payload is the total of all type-22 fragments; it is the total of the clear ones if and only if every protected one is empty |
| TlsAccounting.ProtectedFinishedIsCounted | minarx/protocols/common.py:81-94 | a concrete ChangeCipherSpec and protected Finished, their six layout and four opaque bytes, and no clear handshake byte where the counter reports four |
| TlsAccounting.OpaqueTotalsMatch | minarx/archive.py:47-49 | the captures' opaque counts always add up to the length of the opaque stream, so the mismatch error is never raised |
| ChunkCodec.CompactChunks | minarx/protocols/common.py:173-207 | layout, opaque stream, filtering and measurements of all captures; a filter that keeps nothing of a capture is refused |
| ChunkCodec.KeptExactly | minarx/protocols/common.py:186-189 | a filter keeps, in order, the chunks it admits; without one all are kept |
| ChunkCodec.KeptAllExactly | minarx/protocols/common.py:186-189 | the only ground for refusal is a capture of which the filter keeps nothing |
| ChunkCodec.MeasuredExactly | minarx/protocols/common.py:196-206 | all payload is opaque and none clear, and every chunk is a unit or discarded |
| ChunkCodec.OpaqueTotalsMatch | minarx/archive.py:47-49 | the same total for chunk captures |
| ChunkCodec.MaterializeChunks | minarx/protocols/common.py:210-239 | the loops equal their specification, including the direction check and every limit |
| ChunkCodec.ChunkArchiveRoundTrip | minarx/protocols/common.py:173-239 | every retained chunk comes back with its direction and in order if and only if the archive is within the limits, with both cursors exhausted |
| ChunkCodec.ArchiveFails | minarx/protocols/common.py:210-239 | the same for chunk archives |
| TcpSegments.ExtractTcpChunks | minarx/pcap.py:43-90 | the row loop with its dictionary and set computes de-duplication of the one flow, and each of its three errors exactly when it should |
| TcpSegments.LabelledExactly | minarx/pcap.py:53-69 | which rows are used, with which direction and in which order: those with payload, the server's when the source port is |
| TcpSegments.ExtractedExactly | minarx/pcap.py:43-90 | the extraction succeeds if and only if some row has payload, all payload is of one flow, and no segment leaves a gap |
| TcpSegments.GapErrorExactly | minarx/pcap.py:74-83 | the gap error is raised if and only if some segment starts beyond what its direction has covered; otherwise each direction expects its furthest end |
| TcpSegments.DeduplicationIsTheTrueStream | minarx/pcap.py:51-90 | for any overlapping, gap-free schedule of slices of one stream per direction, the output is that stream from its first to its furthest observed position |
| Chunks.CoalesceFixed | minarx/pcap.py:84-87 | a chunk list has no empty chunk and no two neighbours of one direction if and only if coalescing leaves it alone |
| TcpTrace.WritePcap | minarx/pcap.py:200-233 | the TCP writer's segments are 1400-byte pieces with running sequence numbers; the first number that needs more than 32 bits is the error |
| TcpTrace.PiecesExactly | minarx/pcap.py:210-213 | piece k of a chunk is exactly its bytes from k times the limit on, numbered by where it starts |
| TcpTrace.TraceCarriesStreams | minarx/pcap.py:206-222 | the trace carries each direction's stream, numbered by the bytes sent before |
| TcpTrace.ReobservedTrace | minarx/pcap.py:43-90 | de-duplicating a written trace gives the coalesced chunks back; a coalesced list comes back exactly |
| MinarxPipeline.DecodedTraceFits | minarx/pcap.py:200-233 | a decoded capture whose transport bytes an archive can count never overflows the sequence field |
| MinarxPipeline.RecordsSurviveTheTrace | minarx/pcap.py:43-90 | a decoded TLS capture, written and observed again, splits into the same records in the same order |
| MinarxPipeline.ArchivesMaterialize | minarx/protocols/common.py:47-170 | every archive of non-empty captures within the limits materializes and every result can be observed again |
| MinarxPipeline.TlsIdempotence | minarx/protocols/common.py:47-130 | compacting what was materialized, written and observed again gives byte-identical layout and opaque streams |
| MinarxPipeline.ChunkIdempotence | minarx/protocols/common.py:173-239 | chunk captures coalesced by direction come back as the exact chunk lists |
| MinarxPipeline.ExtractionIsCoalesced | minarx/pcap.py:84-90 | every extraction is such a capture |
| MinarxPipeline.FramesReobserved | minarx/pcap.py:162-233 | the written frames exist if and only if the trace fits the sequence field; extracting from what a dissector reports of them is then re-observing the chunks if and only if no client segment meets server port 49152 |
| MinarxPipeline.ArchiveSizeIgnoresProtectedBytes | minarx/format.py:52-67 | captures that differ only in protected bytes give archives of the same size under every compression choice |
| Container.ReadInvertsWrite | minarx/format.py:70-195 | a written archive reads back as what was stored if and only if the caller's limit admits its counters and stored length |
| Container.DefaultLimitSuffices | minarx/format.py:117-159 | at the default limit this is exactly that compression did not push the stored layout over 2 GiB; with `none` and `auto` it always holds |
| Container.WrittenButRefused | minarx/format.py:97-159 | a concrete pair of sound codecs and a layout of 2 GiB that is written with an explicit choice and then refused |
| Container.WriteInvertsRead | minarx/format.py:117-195 | an accepted uncompressed archive is rewritten byte for byte |
| Container.ReportsAgree | minarx/archive.py:60-159 | both reports agree on the profile and on every count they share, framing costs 66 bytes, and total saved is envelope plus projection plus layout saving minus 66 |
| Container.SizeIgnoresOpaqueContent | minarx/format.py:97-114 | archive size depends on the layout bytes and the opaque length alone |
| Container.CompressExactly | minarx/format.py:52-67 | the identifier is the position of the stored form among the plain, deflated and LZMA layout; `auto` stores the first than which none is shorter |
| Container.WrittenExactly | minarx/format.py:70-114 | what may be written, and the file byte for byte |
| Container.ReadExactly | minarx/format.py:117-195 | the reader accepts a file if and only if it is framed so, its stored layout unpacks, and the caller's limit admits it; it then reports what the file holds |
| Handshakes.ClearHandshakeMessages | minarx/protocols/common.py:250-267 | the record loop with two buffers computes the specification ClearRun |
| Handshakes.ClearMessagesMeaning | minarx/protocols/common.py:250-267 | each direction's messages are the complete messages of its concatenated handshake fragments, however fragmented |
| Handshakes.ClearInCompletionOrder | minarx/protocols/common.py:250-267 | later records only add to the list of both directions |
| Handshakes.MessagesAppend | minarx/protocols/common.py:258-266 | message reassembly is incremental, so fragment boundaries leave no trace |
| Handshakes.MessagesExactly | minarx/protocols/common.py:258-266 | the messages found are exactly the whole messages, each a type, a 24-bit length and that many bytes, that the buffer starts with, and no other is left whole |
| Handshakes.CompleteMessagesStay | minarx/protocols/common.py:258-266 | a message once complete never changes |
| Handshakes.HandshakeMessagesFromStream | decryptor/tls12/derive_rsa.py:83-107 | the two nested loops over one stream compute the specification StreamMessages |
| Handshakes.HandshakeParsersAgree | decryptor/tls12/derive_rsa.py:83-107 | on every capture MinARX accepts the stream parser's messages are a prefix of the record parser's, and the same list if and only if the handshake-typed bytes after the ChangeCipherSpec complete no message |
| Handshakes.ProtectedFinishedIsMisread | minarx/protocols/common.py:250-267 | a concrete capture on which the two parsers differ |
| Checksum.InternetChecksum | minarx/pcap.py:132-138 | the fold loop terminates and returns the complement of the end-around-carry sum, odd lengths padded |
| Checksum.AcceptedChecksums | minarx/pcap.py:132-180 | over a zeroed field the values a receiver accepts are exactly the computed checksum and, when that is zero, 0xFFFF |
| Checksum.OddLengthPadded | minarx/pcap.py:132-134 | an odd last byte is the high half of a word |
| Checksum.SampleChecksum | minarx/pcap.py:132-138 | the worked example of section 3 of RFC 1071 |
| Frames.Ipv4Verifies | minarx/pcap.py:141-159 | the header checksum of every frame verifies |
| Frames.TcpFrameIsFaithful | minarx/pcap.py:162-181 | for every payload a receiver accepts the frame by the addresses, protocol and length in the frame itself, and dissects it back to its ports, sequence number and payload |
| Frames.UdpFrameIsFaithful | minarx/pcap.py:184-197 | for every payload a receiver accepts the frame by its own header and dissects it back to ports, length and payload; the checksum field is never zero |
| Frames.TcpFrameBytes | minarx/pcap.py:141-181 | every other byte of a TCP frame: link header, version, identification, flags, lifetime, protocol, addresses, acknowledgement, offset, flags, window, urgent pointer |
| Frames.UdpFrameBytes | minarx/pcap.py:141-197 | the same link and network header around a UDP datagram |
| SyntheticCapture.MinarxRowIsObserved | minarx/pcap.py:162-181 | a piece is packed if and only if its number fits; a receiver then accepts the frame and it reads back as its row |
| SyntheticCapture.MinarxFramesObserved | minarx/pcap.py:200-233 | a whole trace is packed if and only if all its numbers fit; every frame is then accepted and the dissector's rows are the trace's, in order |
| SyntheticCapture.MinarxFrameBytes | minarx/pcap.py:162-233 | frame i of a trace: addresses by direction, identification i + 1, acknowledgement 1, flags PSH and ACK |
| SyntheticCapture.MinarxLabelsSurviveExactly | minarx/pcap.py:65-166 | extraction sees exactly the trace that was written if and only if no client segment was written with the server on port 49152 |
| SyntheticCapture.CollidingPortMislabels | minarx/pcap.py:65-166 | a concrete client byte that comes back as the server's |
| SyntheticCapture.PolicyFrameObserved | archive_policy.py:550-590 | every frame of the policy writer reads back with its own direction, whatever the port |
| SyntheticCapture.PolicyFrameBytes | archive_policy.py:550-617 | a policy frame's addresses and ports by direction, with the client on 55000 or, next to a server there, on 55001; acknowledgement, flags and identification |
| PolicyArchive.EncodeWireEvents | archive_policy.py:75-83 | magic, count and events, or the packing error when a count or length needs more than 32 bits |
| PolicyArchive.DecodeWireEvents | archive_policy.py:86-104 | the cursor loop equals its specification with all four refusals |
| PolicyArchive.WireFormatIsCanonical | archive_policy.py:75-104 | a file decodes to an event list if and only if it is that list's encoding |
| PolicyArchive.FileRefused | archive_policy.py:86-104 | any other file is a manifest error |
| PolicyArchive.TcpEvents | archive_policy.py:129-189 | the row loop computes the policy's de-duplication of the first stream, and its errors |
| PolicyArchive.EventsExactly | archive_policy.py:168-186 | a segment adds one event with what goes beyond its direction's furthest end, none where nothing does, and is refused if and only if it leaves a gap |
| PolicyArchive.LabelsAgree | archive_policy.py:165-167 | both implementations label a row alike if and only if not both its ports are the server's |
| PolicyArchive.LabellingsAgree | archive_policy.py:151-189 | over a whole capture both implementations give the same labelled segments if and only if no row with payload has both ports the server's |
| PolicyArchive.ExtractorsAgree | archive_policy.py:151-189 | both de-duplications refuse the same segment lists, and coalescing the policy's events gives the MinARX chunks |
| PolicyArchive.ExtractionsAgree | archive_policy.py:129-189 | from the rows of one stream, none with both ports the server's, both extractors succeed together with the same chunks up to coalescing |
| PolicyArchive.ExtractionsAgreeExactly | archive_policy.py:129-189 | on the rows of one connection both extractors refuse together, and give the same chunks up to coalescing if and only if no row with payload has both ports the server's or both refuse |
| PolicyArchive.WriteTcpPcap | archive_policy.py:613-678 | the opening and the data packets, with sequence and acknowledgement equal to the initial values plus the bytes sent before in each direction |
| PolicyArchive.PolicyPacketsExactly | archive_policy.py:613-678 | the opening packets from 1000 and 5000, and every data packet's number, acknowledgement, flags, identification and size, counted in bytes sent before |
| PolicyArchive.PolicyTraceIsSound | archive_policy.py:613-678 | either extractor applied to the policy's trace returns the events up to coalescing |
| PolicyRecords.TlsRecordEvents | archive_policy.py:230-272 | the policy's nested record loop computes the complete records of both directions, with each refusal, and then prunes them for the protocol and mode |
| PolicyRecords.PruningExactly | archive_policy.py:258-271 | pruning keeps every client record; of the server's it drops alerts and application data for TLS 1.2, everything for early data, and nothing otherwise |
| PolicyRecords.PruningInOrder | archive_policy.py:258-271 | each record is kept or not by itself and the order of both sides stays |
| PolicyRecords.PolicyDrainAppend | archive_policy.py:239-253 | draining in pieces is draining at once, and a refused header is never repaired |
| PolicyRecords.RecordSplittersAgree | archive_policy.py:236-257 | the policy splitter accepts exactly the captures that split_tls_records splits into at least one record, all of TLS type and major version, and keeps those records in that order |
| QuicVarint.DecodeVarint | decryptor/quic/derive_quic.py:87-99 | the shifting loop reads the big-endian value under the two width bits, or fails on truncated data |
| QuicVarint.VarintRoundTrip | decryptor/quic/derive_quic.py:87-99 | every value in every width it fits is read back with that width |
| QuicVarint.DecodedWasEncoded | decryptor/quic/derive_quic.py:87-99 | every decoded varint is an encoding of its value in the width consumed |
| QuicVarint.CutShortRefused | decryptor/quic/derive_quic.py:87-99 | every proper prefix of an encoding is refused, and nothing else is |
| QuicVarint.SampleDecodings | decryptor/quic/derive_quic.py:87-99 | the one-, two- and four-byte samples of section A.1 of RFC 9000 |
| QuicPackets.IterCoalescedPackets | decryptor/quic/derive_quic.py:293-349 | the cursor loop terminates on every datagram and yields the specification's packets |
| QuicPackets.PacketsPartition | decryptor/quic/derive_quic.py:293-349 | for every datagram the packets are non-empty and concatenate back to it |
| QuicPackets.KindIsRead | decryptor/quic/derive_quic.py:319-336 | the packet type is the two bits below the long-header and fixed bits |
| QuicPackets.CoalescedPacketsComeApart | decryptor/quic/derive_quic.py:300-349 | Initial (0), 0-RTT (1) and Handshake (2) packets with any other first bits, followed by at most one Retry (3) or short-header packet, are split into exactly those packets |
| QuicFrames.ParseCryptoFrames | decryptor/quic/derive_quic.py:199-260 | the cursor loop with its inner ACK loop equals the specification on every plaintext, errors included |
| QuicFrames.FramesRoundTrip | decryptor/quic/derive_quic.py:199-260 | PADDING, CRYPTO, type-0x02 ACK and CONNECTION_CLOSE frames, with any number of ranges and any varint widths, give exactly the CRYPTO data in order |
| QuicFrames.WalkEndsExactly | decryptor/quic/derive_quic.py:207-260 | after any such frames, an ACK with fewer ranges than it counts raises and what was found is lost; CRYPTO data or a reason cut short, or any other frame type, ends the walk with what was found |
| QuicFrames.EcnCountsAreReadAsFrames | decryptor/quic/derive_quic.py:232-247 | the three counts that end a 0x03 ACK are read as frames; they are harmless for every continuation if and only if all three are zero |
| QuicFrames.EcnAckExactly | decryptor/quic/derive_quic.py:232-247 | a whole 0x03 ACK frame, with any ranges and widths, is passed over whatever follows it if and only if its three counts are zero |
| QuicFrames.CryptoLostAfterEcnAck | decryptor/quic/derive_quic.py:232-247 | a concrete 0x03 frame after which a CRYPTO frame is lost that is found alone |
| QuicCrypto.ReassembleCryptoPrefix | decryptor/quic/derive_quic.py:280-290 | every byte returned is some entry's byte at its position, and the position after the last is covered by no entry |
| QuicCrypto.PrefixIsLongest | decryptor/quic/derive_quic.py:280-290 | for entries of one stream the result is the longest covered prefix of that stream |
| QuicCrypto.PrefixGrows | decryptor/quic/derive_quic.py:280-290 | adding entries only extends the prefix |
| QuicCrypto.ReassembleGapFilled | decryptor/quic/derive_quic.py:667-679 | covered positions hold an entry's byte, uncovered ones zero, up to the furthest end |
| QuicCrypto.PrefixOfGapFilled | decryptor/quic/derive_quic.py:667-679 | the prefix is a prefix of the zero-filled form, equal to it if and only if there is no gap |
| QuicCrypto.FirstFrameKept | decryptor/quic/derive_quic.py:455-456 | the dictionary holds, at each offset received, the first frame received there |
| QuicCrypto.CoveredByFirsts | decryptor/quic/derive_quic.py:455-456 | the dictionary covers exactly the positions that lie in a frame which is the first at its offset |
| QuicCrypto.EntriesHoldTheirFrames | decryptor/quic/derive_quic.py:455-456 | every received frame fits into its own entry if and only if the first frame at each offset is the longest there |
| QuicCrypto.DictionaryCoversReceived | decryptor/quic/derive_quic.py:455-456 | then the dictionary covers every received byte; it never covers any other |
| QuicCrypto.DictionaryCompleteExactly | decryptor/quic/derive_quic.py:455-456 | no received byte is lost if and only if, wherever a later frame goes on past the first one at its offset, the first frame at some offset holds the byte |
| QuicCrypto.LongerRetransmissionDropped | decryptor/quic/derive_quic.py:455-456 | a concrete longer retransmission whose second byte is lost |
| QuicCrypto.HandshakeNeverChanges | decryptor/quic/derive_quic.py:263-277 | the handshake message at the front, once complete, stays the same as the prefix grows |
| QuicCrypto.FirstMessageParsed | decryptor/quic/derive_quic.py:263-277 | the message found is the first whole one, and none is found if and only if none is whole |
| QuicCrypto.HandshakeStays | decryptor/quic/derive_quic.py:263-456 | for frames of one stream, the prefix only grows and the handshake message found after the first n frames is the one found after all of them |
| SshWire.ParseSshTransportStream | decryptor/core/ssh_crypto.py:186-215 | the packet loop computes the specification Transported on every stream, with each of its errors |
| SshWire.IdentificationFound | decryptor/core/ssh_crypto.py:188-195 | after any preceding lines, the first "SSH-" line is the version string without its line ending |
| SshWire.IdentificationWasSent | decryptor/core/ssh_crypto.py:188-195 | conversely a version that is returned stood in the stream as a line, from its first "SSH-" on |
| SshWire.TransportRoundTrip | decryptor/core/ssh_crypto.py:186-215 | what a sender frames, through its NEWKEYS, is returned with the version and the first encrypted byte |
| SshWire.ScannedWasFramed | decryptor/core/ssh_crypto.py:198-211 | every packet found is one some sender framed and no byte is skipped |
| SshWire.AcceptedWasSent | decryptor/core/ssh_crypto.py:186-215 | an accepted stream is whatever precedes its first "SSH-", the line with the returned version, framed packets ending in the only NEWKEYS, and the rest: exactly the streams of SshWire.TransportRoundTrip |
| SshWire.TransportRefused | decryptor/core/ssh_crypto.py:186-215 | every refusal is a value error |
| SshNegotiation.StringRoundTrip | decryptor/core/ssh_crypto.py:174-183 | a string is read back wherever it stands |
| SshNegotiation.StringWasWritten | decryptor/core/ssh_crypto.py:174-183 | whatever is read stood there as a string |
| SshNegotiation.Split | decryptor/core/ssh_crypto.py:226 | comma-free names whose join is the text |
| SshNegotiation.ParseKexinitNameLists | decryptor/core/ssh_crypto.py:218-227 | the ten turns compute the specification NameLists, with each refusal |
| SshNegotiation.KexinitRoundTrip | decryptor/core/ssh_crypto.py:218-227 | ten texts written after the cookie of a message 20 are read back as their names, whatever follows, if and only if they are ASCII |
| SshNegotiation.FindFirstKexinit | minarx/protocols/ssh.py:31-59 | the reader loop computes the specification FirstKexinit on every stream |
| SshNegotiation.KexinitAccepted | minarx/protocols/ssh.py:31-59 | after the identification line and any other packets within 35000 bytes, a message 20 with its cookie and ten texts is accepted, with the names of the texts, if and only if they are ASCII and exactly five bytes follow |
| SshNegotiation.FramedFront | minarx/protocols/ssh.py:38-49 | a framed packet is read whole if and only if its length is at most 35000 |
| SshNegotiation.ParsersRefuse | minarx/protocols/ssh.py:23-59 | every refusal of either KEXINIT parser is a value error |
| SshNegotiation.NextNameList | minarx/protocols/ssh.py:23-28 | one list off the reader, or an error exactly where the other parser's field is refused |
| SshNegotiation.ParsersAgree | minarx/protocols/ssh.py:31-59 | on every stream both parsers accept they find the same ten lists |
| SshNegotiation.NegotiateName | decryptor/core/ssh_crypto.py:230-236 | the client's first choice that the server offers; an error if and only if there is none |
| SshNegotiation.NegotiatedExactly | decryptor/core/ssh_crypto.py:239-270 | key exchange, host key and both ciphers are each the client's first choice that the server lists, from the first four lists in that order |
| SshNegotiation.StrictNames | decryptor/core/ssh_crypto.py:239-270 | the names that announce strict key exchange are those of OpenSSH |
| SshNegotiation.InitialKexRefused | decryptor/core/ssh_crypto.py:239-305 | and so is every refusal of the initial exchange |
| SshNegotiation.NegotiationsAgree | minarx/protocols/ssh.py:62-76 | on every pair of streams both implementations accept they choose the same key exchange and both ciphers |
| SshNegotiation.ExchangeExactly | decryptor/core/ssh_crypto.py:273-305 | an exchange is extracted if and only if both peers' first messages of each kind spell it |
| SshNegotiation.FirstOfExactly | decryptor/core/ssh_crypto.py:278-284 | the first packet of a type is found, and none if and only if there is none |
| SshNegotiation.ClassifiedInEitherOrder | decryptor/ssh/derive_ssh.py:78-87 | the directions are told apart in either order when the server's clear packets hold no client message |
| SshSessions.StreamsGiveKex | decryptor/core/ssh_crypto.py:239-270 | two well-formed streams, in either order, give exactly the announced exchange, agreed algorithms, strictness, packet counts and encrypted rest |
| SshKeys.DeriveSshKey | decryptor/core/ssh_crypto.py:20-50 | the loop terminates for any hash with fixed non-empty output and returns exactly the requested length of the specified key |
| SshKeys.EnoughBlocks | decryptor/core/ssh_crypto.py:32-50 | the key is K1, K2, K3 and so on by the recurrence of section 7.2 of RFC 4253, cut to the length, for any sufficient number of blocks |
| SshKeys.KeyRecurrence | decryptor/core/ssh_crypto.py:32-50 | on the key itself: its first block is the hash of K, H, letter and session id, every later one the hash of K, H and all the blocks before |
| SshKeys.ShorterKeyIsPrefix | decryptor/core/ssh_crypto.py:32-50 | a shorter request is a prefix of a longer one |
| SshKeys.LettersOfTheKeys | decryptor/core/ssh_crypto.py:53-82 | letters A to F of section 7.2 of RFC 4253 make the client and server IV, encryption and integrity keys, in that order |
| SshKeys.ExpandPHash | decryptor/core/tls12_crypto.py:8-17 | the loop returns exactly the requested length of P_hash |
| SshKeys.EnoughHashBlocks | decryptor/core/tls12_crypto.py:8-17 | P_hash by the A(i) recurrence of section 5 of RFC 5246, for any sufficient number of blocks |
| SshKeys.PHashRecurrence | decryptor/core/tls12_crypto.py:8-17 | on the output itself: block n is the HMAC of A(n + 1) and the seed, for any sequence A that starts with the seed and goes on by HMAC |
| SshKeys.ShorterPHashIsPrefix | decryptor/core/tls12_crypto.py:8-17 | a shorter request is a prefix of a longer one |
| SshKeys.MpintIsCanonical | decryptor/core/ssh_crypto.py:151-156 | the encoding keeps the value and has neither a superfluous leading zero nor a sign bit |
| SshKeys.MpintsAgree | decryptor/core/ssh_crypto.py:133-156 | the two mpint encodings agree if and only if the value has no superfluous leading zero |
| SshKeys.LeadingZeroKept | decryptor/core/ssh_crypto.py:133-137 | a concrete 32-byte secret on which they differ |
| SshKeys.TranscriptOrder | decryptor/core/ssh_crypto.py:117-148 | the hashed fields are V_C, V_S, I_C, I_S, K_S, Q_C, Q_S and K, each as one string, in that order |
| SshKeys.HashesAgree | decryptor/core/ssh_crypto.py:117-148 | the exchange hash is the peers' whenever the secret is minimal; otherwise it hashes another transcript |
| SshCipher.SealedOpens | decryptor/core/ssh_crypto.py:315-345 | for any correct cipher a sealed packet opens to its payload, whatever follows it |
| SshCipher.OpenedWasSealed | decryptor/core/ssh_crypto.py:315-345 | whatever opens is exactly the sealing of its payload under that key and sequence number |
| SshCipher.PacketAsSealedOpens | decryptor/core/ssh_crypto.py:315-345 | the packet in terms of the raw key: its second half encrypts the length, its first half the body and the zero bytes that give the authenticator's key; such a packet opens to its payload |
| SshCipher.DecryptEpoch | decryptor/core/ssh_crypto.py:363-390 | the loop computes the specification OpenEpoch: packets, remaining bytes, next number, and whether NEWKEYS ended it |
| SshCipher.DecryptStream | decryptor/core/ssh_crypto.py:348-360 | the loop computes the specification OpenStream |
| SshCipher.EpochRefused | decryptor/core/ssh_crypto.py:315-390 | every refusal of a packet, an epoch or a stream is a value error |
| SshCipher.EpochRoundTrip | decryptor/core/ssh_crypto.py:363-390 | one epoch of one direction opens to what was sent and stops right after NEWKEYS |
| SshCipher.EpochWasSealed | decryptor/core/ssh_crypto.py:363-390 | every byte consumed belongs to exactly one authenticated packet, numbered in order modulo 2^32 |
| SshCipher.EpochIsAStreamPrefix | decryptor/core/ssh_crypto.py:348-390 | the two loops agree on the bytes an epoch consumes |
| SshOracle.Serve | decryptor/ssh/oracle.py:30-57 | the server loop's answers to any run of requests |
| SshOracle.OracleServer.Answer | decryptor/ssh/oracle.py:35-57 | the first unused entry for the share, which becomes used |
| SshOracle.ReleasedOnce | decryptor/ssh/oracle.py:30-57 | over every run no entry is released twice and every released entry holds the queried public value |
| SshOracle.ReleasedInStoredOrder | decryptor/ssh/oracle.py:35-57 | the releases for a value are its entries in stored order, as many as the smaller of queries and entries |
| SshOracle.SuccessesAreTheMinimum | decryptor/ssh/oracle.py:30-57 | the number of successes is that minimum |
| SshOracle.SimulatedQuantumOracle.Recover | decryptor/ssh/oracle.py:93-124 | the scalar or error, the entry used up, and the one event appended with its final status |
| SshOracle.ReleasedIsConsistent | decryptor/ssh/oracle.py:99-124 | a scalar is returned if and only if its event says released, and then its public value is the one asked for; which of the other three outcomes an event records is exact too |
| SshRecovery.ChannelDataExactly | decryptor/core/ssh_crypto.py:393-400 | data is extracted if and only if the message carries exactly one string after its recipient; which messages are passed over, and that any other is a value error |
| SshRecovery.OnePayload | decryptor/ssh/derive_ssh.py:303-307 | one packet gives its data, nothing, or the error |
| SshRecovery.ChunksInOrder | decryptor/ssh/derive_ssh.py:303-316 | the data of a list of packets is that of its parts, one after the other; the first refused packet decides the error |
| SshRecovery.SignatureExactly | decryptor/core/ssh_crypto.py:403-413 | a host signature is accepted if and only if key and signature follow the name ssh-ed25519, the key has 32 bytes and the raw check holds |
| SshRecovery.SupportedExactly | decryptor/ssh/derive_ssh.py:225-242 | the one key exchange, cipher, recovered side and test marker |
| SshRecovery.ContainsExactly | decryptor/ssh/derive_ssh.py:379-380 | the test marker is looked for at every position of the joined channel data |
| SshRecovery.UnsupportedRefused | decryptor/ssh/derive_ssh.py:229-242 | anything else is refused before the oracle is asked |
| SshRecovery.LoneNewkeysRefused | decryptor/ssh/derive_ssh.py:318-319 | an epoch in which only one direction reaches NEWKEYS ends the run before the oracle is asked |
| SshRecovery.NotEstablished | decryptor/ssh/derive_ssh.py:333-363 | the ways in which keys are not established; a wrong size or an all-zero secret is a value error |
| SshRecovery.DeriveSsh | decryptor/ssh/derive_ssh.py:225-384 | the epoch loop with all its variables computes the specification Derive, oracle state included, on every input |
| SshSessions.EstablishedExactly | decryptor/ssh/derive_ssh.py:333-363 | from the right scalar an epoch's keys are the peers' if the secret is minimal, and the signature is refused otherwise |
| SshSessions.TurnGoesOn | decryptor/ssh/derive_ssh.py:294-377 | one turn of the loop in an epoch that is not the last |
| SshSessions.RunThroughSession | decryptor/ssh/derive_ssh.py:294-377 | the loop over the rest of any well-formed session |
| SshSessions.SessionRecoveredExactly | decryptor/ssh/derive_ssh.py:244-384 | for every well-formed session of any number of epochs recovery succeeds if and only if every secret is minimal and the test marker occurs; it then returns every payload of every epoch in order, under keys with the first exchange hash as session id |
| SshSessions.MinimalSessionRecovered | decryptor/ssh/derive_ssh.py:244-384 | the successful half, for which nothing is asked of the signature beyond the peers' own hash |
| SshSessions.SessionChunksInOrder | decryptor/ssh/derive_ssh.py:303-316 | a session's channel data is that of all the server's packets from its first epoch to its last, in the order in which they were sent |
| SshSessions.StreamsRecoveredExactly | decryptor/ssh/derive_ssh.py:78-384 | the same from the two byte streams, given in either order |
| SshExample.ToySessionRecovered | decryptor/ssh/derive_ssh.py:78-384 | a concrete session of two epochs, with its clear openings, that meets every hypothesis and is recovered from both byte streams in either order |
| SshExample.ToySessionRefused | decryptor/ssh/derive_ssh.py:78-363 | the same session with a 32-byte zero-led secret also meets every hypothesis, and ends in the signature error |
| SshAccounting.DrainedWasSealed | decryptor/ssh/derive_ssh.py:294-377 | a direction opened epoch by epoch to its end is exactly the sealed packets of its epochs |
| SshAccounting.SequenceNumbers | decryptor/ssh/derive_ssh.py:373-377 | the number of packet i of epoch k, with and without strict key exchange, modulo 2^32 |
| SshAccounting.SuccessIsCertified | decryptor/ssh/derive_ssh.py:244-384 | on any success, whatever was captured, both encrypted streams are completely taken apart into authenticated, correctly numbered and counted packets under keys with the first hash as session id; every epoch's keys come from one released stored scalar, for the share of an exchange announced in the clear or in the epoch before, whose hash carries a valid host signature; nothing else was released |
| SshAccounting.CountsAreExact | decryptor/ssh/derive_ssh.py:301-316 | the reported packet counts are those of the packets each epoch opened, and the channel byte counts add up to the recovered data |
| SshAccounting.AskedForAnnounced | decryptor/ssh/derive_ssh.py:294-332 | in any turn of any run, the one entry that may be added to the release trace is about the share that the turn's own authenticated packets announce |
| SshAccounting.ReleasesAreNumbered | decryptor/ssh/derive_ssh.py:244-332 | in every run, successful or not, release events are numbered 0, 1, 2 and so on with strictly increasing packet counts, only the last may be a refusal, and the first is for the share announced in the clear |
| SshAccounting.ReleasesCountPackets | decryptor/ssh/derive_ssh.py:244-332 | in a successful run the release for an epoch records exactly the packets authenticated in the epochs before it |

## Left out

- tshark, file access, sockets, the oracle's process and its timeouts: a dissector is taken to return the fields at their fixed offsets in the frames of one flow.
- PCAP file and record headers and timestamps: they carry nothing that is read back.
- The text form of dissector columns (hexadecimal, colons, commas, missing columns): rows are taken as already parsed.
- UDP extraction and the QUIC and UDP branches of the archive writers, apart from the UDP frame itself: one chunk a datagram, no reassembly.
- Profile registries, manifests, reports in JSON and command lines; `Container` keeps the profile as its number.
- The handshake extractor's own dictionary keeps the last frame at an offset; `QuicCrypto.PrefixOfGapFilled` compares the two reassemblies on one dictionary.
- QUIC header protection, packet decryption and the TLS key schedules: cipher and hash calls.
- `parse_client_hello_without_binders` and the other scanning heuristics.
- Comparison with ground truth after a recovery, and the files written then.
- Bitwise or of disjoint bits is modelled as addition, and shifts as multiplication and division by powers of two.
- QuicFrames.FramesRoundTrip: is about the frames the parser skips whole; at any other type it stops (QuicFrames.WalkEndsExactly), and it does not skip the counts of type 0x03, for which QuicFrames.EcnAckExactly gives the exact condition.
- SshSessions.SessionRecoveredExactly: takes the dependence of the secret on the scalar from the oracle's entries, so that nothing is assumed of the key agreement itself.
- SshNegotiation.ParsersAgree: is about streams both parsers accept; the stricter one also limits a packet to 35000 bytes and requires the end of the message after the reserved bytes.
