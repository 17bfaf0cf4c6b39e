# ZeroTier VL1 locators and paths, modelled in Dafny

This project models two pieces of ZeroTier's VL1 (virtual layer 1, peer-to-peer
reachability) and proves what they promise.

* **Locator** (`locator.dfy`, module `Locators`). A locator is an immutable record
  saying where a node (the *subject*) can be reached, signed by a *signer*. The
  model covers:
  * creation: sort and dedup the endpoints, encode without the signature, sign;
  * the supersession rule `should_replace` and the proxy-signing test;
  * signature checking with its address gate;
  * the field-by-field wire format, including the skipped extension field;
  * the lexicographic `Ord`;
  * the signature-first `Hash`.
* **Path** (`path.dfy`, module `Paths`). A path is a remote endpoint plus a local
  socket and interface, with send and receive timestamps and a table of packets
  being reassembled from fragments. The model covers:
  * construction with a fresh instance id;
  * `receive_fragment`: the flood-defence eviction of the oldest third, then
    find-or-create, add the fragment, and remove on completion;
  * the two logging stores;
  * `service`: prune expired reassemblies, then classify as Ok, NeedsKeepalive or
    Dead;
  * `PacketIdHasher`, the xorshift mixer that hashes packet ids, on `bv64`.

Supporting modules:

* `wrappers.dfy` holds `Option` and `Result`.
* `buffers.dfy` is the byte buffer with its fixed-width and varint codecs.
* `vl1.dfy` holds addresses, endpoints and identities.
* `sorting.dfy` is an insertion sort standing in for `sort_unstable`, plus
  `Vec::dedup`.

The buffer, address and endpoint code (buffer.rs, varint.rs, address.rs,
endpoint.rs, identity.rs) is not part of this model. Each is reduced to a small
concrete stand-in, and the round-trip facts the locator codec needs about them are
proved, not taken on trust:
* addresses are 5-byte big-endian values;
* u64 values are 8 bytes big-endian;
* varints use 7 bits per byte, with the high bit marking the last byte;
* an endpoint is an ordered code encoded as a varint.

Reads are modelled on the unread rest of the input. A read returns the value and
what remains, so a cursor into `s` with `rest` left stands at `|s| - |rest|`.

Where the code and its comments disagree, the model follows the code:

* `build_hasher` returns `Self(0)`. The random seed stored when a path's table is
  built never reaches the hashers the map uses (`Paths.HashWith`).
* `Ord::cmp` ignores the signature, while the derived `Eq` compares it. Two
  locators differing only in signature compare `Equal` but are not equal
  (`Locators.CmpIgnoresSignature`).
* `unmarshal` skips the extension with `*cursor += len as usize`. A release build
  wraps that sum modulo 2^64 (a debug build panics instead). A declared length
  near 2^64 therefore moves the cursor backwards, and the signature is read from
  bytes already read (`Locators.UnmarshalAt`, `Locators.ExtensionWrapReadsBackwards`).
  Without a wrap, an extension running past the end fails only at the next read,
  exactly as a checked skip would (`Locators.UnmarshalAgreesUnlessWrapped`).
  See "## Findings".

## Model

| member | source | states |
|---|---|---|
| Locators.IsProxySigned | network-hypervisor/src/vl1/locator.rs:72 | a locator is proxy-signed exactly when its signer is not its subject (a predicate without a contract; ShouldReplace and its lemmas state what it decides) |
| Locators.ShouldReplace | network-hypervisor/src/vl1/locator.rs:57-63 | a locator replaces another only when it is later or is self-signed against a proxy-signed one; a self-signed one always replaces a proxy-signed one, and never the other way round |
| Locators.ShouldReplaceFollowsRank | network-hypervisor/src/vl1/locator.rs:57-63 | should_replace holds exactly when the first locator outranks the second: self-signed above proxy-signed, then the strictly later timestamp |
| Locators.ShouldReplaceSameStatus | network-hypervisor/src/vl1/locator.rs:58-59 | with equal proxy status, replacement holds iff the timestamp is strictly later; equal timestamps replace in neither direction |
| Locators.ShouldReplaceSelfSignedWins | network-hypervisor/src/vl1/locator.rs:60-62 | a self-signed locator replaces a proxy-signed one whatever the timestamps, and never the other way round |
| Locators.ShouldReplaceStrictOrder | network-hypervisor/src/vl1/locator.rs:57-63 | supersession is irreflexive, asymmetric and transitive |
| Locators.Normalize | network-hypervisor/src/vl1/locator.rs:40-41 | the normalised endpoints are strictly ascending and hold exactly the input's endpoints |
| Locators.NormalizeSteps | network-hypervisor/src/vl1/locator.rs:40-41 | sort_unstable then dedup yields strictly ascending endpoints holding exactly the input's endpoints |
| Locators.NormalizeCanonical | network-hypervisor/src/vl1/locator.rs:40-41 | endpoint lists with the same members, in any order and with any repeats, normalise to the same list |
| Locators.Create | network-hypervisor/src/vl1/locator.rs:32-51 | None exactly when the unsigned encoding exceeds PACKET_SIZE_MAX or signing fails; otherwise subject, signer = the identity's address, timestamp, normalised endpoints, and the signer's signature over the signature-excluded encoding |
| Locators.VerifySignature | network-hypervisor/src/vl1/locator.rs:80-91 | true exactly when the unsigned encoding fits, the identity's address is the recorded signer, and the identity verifies the signature over that encoding |
| Locators.CreateThenVerify | network-hypervisor/src/vl1/locator.rs:32-91 | a locator just created by an identity whose verifier accepts its own signatures verifies against it |
| Locators.MarshalInternal | network-hypervisor/src/vl1/locator.rs:93-107 | appends subject, signer, timestamp as u64, endpoint count, endpoints, a zero extension length and (unless excluded) signature length and bytes; reports failure exactly when the whole encoding does not fit, and a failed call leaves a prefix of the encoding appended |
| Locators.Marshal | network-hypervisor/src/vl1/locator.rs:110 | marshal is marshal_internal with the signature included; the buffer ends up holding its old bytes followed by a prefix of the encoding, all of it on success |
| Locators.AppendEndpoints | network-hypervisor/src/vl1/locator.rs:98-100 | the endpoint loop appends the endpoints' encodings in order, failing exactly when they do not fit, and leaving a prefix of them appended when it fails |
| Locators.AppendTrailer | network-hypervisor/src/vl1/locator.rs:101-105 | appends the zero extension length and, unless excluded, the signature length and bytes; fails exactly when they do not fit, leaving a prefix of them appended |
| Locators.AppendBody | network-hypervisor/src/vl1/locator.rs:96-105 | appends everything after the two addresses; fails exactly when it does not fit, leaving a prefix of it appended |
| Locators.AppendSignature | network-hypervisor/src/vl1/locator.rs:103-104 | appends the signature length and bytes; fails exactly when they do not fit, leaving a prefix of them appended |
| Locators.AppendEndpointList | network-hypervisor/src/vl1/locator.rs:97-100 | appends the endpoint count and the endpoints; fails exactly when they do not fit, leaving a prefix of them appended |
| Locators.AppendListAndTrailer | network-hypervisor/src/vl1/locator.rs:97-105 | appends the endpoint count, the endpoints and the trailer; fails exactly when they do not fit, leaving a prefix of them appended |
| Locators.AppendSignerAndBody | network-hypervisor/src/vl1/locator.rs:95-105 | appends the signer and everything after it; fails exactly when it does not fit, leaving a prefix of it appended |
| Locators.DecodeEndpointsEncoded | network-hypervisor/src/vl1/locator.rs:119-123 | the endpoint loop reads back exactly the endpoints written, leaving what follows |
| Locators.ReadEndpoints | network-hypervisor/src/vl1/locator.rs:120-123 | the imperative endpoint loop computes the endpoint decoding: the endpoints, or the first read error |
| Locators.Encoding | network-hypervisor/src/vl1/locator.rs:93-107 | the bytes marshal_internal writes: subject, signer, timestamp as u64, endpoint count, endpoints, extension length and extension, then (unless excluded) signature length and signature; a function without a contract, whose inverse is DecodeEncoding |
| Locators.DecodeEndpoints | network-hypervisor/src/vl1/locator.rs:119-123 | a successful read of `count` endpoints returns exactly that many more and never grows the remaining input |
| Locators.DecodeHeader | network-hypervisor/src/vl1/locator.rs:113-124 | the reads up to the extension length: a successful read consumes at least one byte |
| Locators.ReadHeader | network-hypervisor/src/vl1/locator.rs:113-124 | the step-by-step reads of subject, signer, validity check, timestamp, endpoint count, endpoints and extension length compute DecodeHeader, errors included |
| Locators.DecodeSignature | network-hypervisor/src/vl1/locator.rs:125-126 | the signature length and bytes: a successful read consumes at least one byte |
| Locators.DecodeLocator | network-hypervisor/src/vl1/locator.rs:112-134 | unmarshal with the extension skip checked against the input: a successful read consumes at least one byte and returns what follows it |
| Locators.UnmarshalAt | network-hypervisor/src/vl1/locator.rs:112-134 | unmarshal as written, with the extension skip wrapping modulo 2^64: a successful read returns a cursor that lies within the buffer, wherever the skip landed |
| Locators.WrappingAdd | network-hypervisor/src/vl1/locator.rs:124 | the `usize` add of the skip: the result is below 2^64, and equals the plain sum whenever that sum is below 2^64 |
| Locators.SignatureAt | network-hypervisor/src/vl1/locator.rs:125-133 | the signature read where the skip landed: on success the cursor returned lies past that position and within the buffer |
| Locators.ReadSignatureAt | network-hypervisor/src/vl1/locator.rs:125-133 | the step-by-step signature read computes SignatureAt, errors included |
| Locators.UnmarshalChecked | network-hypervisor/src/vl1/locator.rs:112-134 | unmarshal with the skip checked against the input: on success the returned cursor lies past the starting cursor and within the buffer |
| Locators.UnmarshalAgreesUnlessWrapped | network-hypervisor/src/vl1/locator.rs:112-134 | whenever the cursor plus the declared extension length stays below 2^64, unmarshal as written returns exactly what the checked skip returns, errors included |
| Locators.ExtensionWrapReadsBackwards | network-hypervisor/src/vl1/locator.rs:124 | a 29-byte header with no endpoints and extension length 2^64 - 11 unmarshals as written to a locator ending at cursor 19, shorter than its own encoding, while the checked skip rejects it |
| Locators.UnmarshalCheckedReadsForward | network-hypervisor/src/vl1/locator.rs:124 | with the skip checked, a successful unmarshal always ends past the end of the header it read |
| Locators.DecodeEncoding | network-hypervisor/src/vl1/locator.rs:112-134 | decoding an encoding with any extension bytes, followed by anything, yields the locator field for field and leaves exactly what follows: unknown extensions are skipped |
| Locators.UnmarshalEncoded | network-hypervisor/src/vl1/locator.rs:112-134 | unmarshal at a cursor where an encoding starts yields its locator and advances the cursor exactly over the encoding |
| Locators.UnmarshalAfterPrefix | network-hypervisor/src/vl1/locator.rs:112-134 | unmarshal at a cursor where a decodable record starts returns its locator and the cursor just past the record, whatever precedes it |
| Locators.UnmarshalWholeEncoding | network-hypervisor/src/vl1/locator.rs:93-134 | a buffer holding exactly an encoding unmarshals from its start to the encoded locator |
| Locators.Unmarshal | network-hypervisor/src/vl1/locator.rs:112-134 | the step-by-step unmarshal computes the functional decoding at the cursor, errors included |
| Locators.MarshalThenUnmarshal | network-hypervisor/src/vl1/locator.rs:93-134 | marshalling into an empty buffer succeeds iff the encoding fits, and then unmarshalling from 0 returns the locator and a cursor just past it |
| Locators.DecodeRejectsInvalidAddress | network-hypervisor/src/vl1/locator.rs:113-117 | a record whose subject or signer is not a valid address is rejected with InvalidData |
| Locators.SignedPayloadDeterminesFields | network-hypervisor/src/vl1/locator.rs:43-47 | the signed bytes determine subject, signer, timestamp and endpoints, so the signature covers them all |
| Locators.Cmp | network-hypervisor/src/vl1/locator.rs:139-156 | two locators compare Equal exactly when subject, timestamp, signer and endpoints agree; the signature is never consulted |
| Locators.CmpTotalOrder | network-hypervisor/src/vl1/locator.rs:139-156 | cmp is antisymmetric (reversing the arguments reverses the result), transitive, and Equal exactly when subject, timestamp, signer and endpoints agree |
| Locators.CmpEndpoints | network-hypervisor/src/vl1/locator.rs:146 | `Vec<Endpoint>::cmp`: lexicographic by endpoint, a proper prefix first (no contract; CmpEndpointsReverse and CmpEndpointsTransitive state its properties) |
| Locators.CmpEndpointsReverse | network-hypervisor/src/vl1/locator.rs:146 | the lexicographic endpoint comparison reverses with its arguments and is Equal only on equal lists |
| Locators.CmpEndpointsTransitive | network-hypervisor/src/vl1/locator.rs:146 | the lexicographic endpoint comparison is transitive |
| Locators.CmpIgnoresSignature | network-hypervisor/src/vl1/locator.rs:139-156 | replacing the signatures of both locators, by any bytes, never changes their comparison; a locator compares Equal to itself with another signature although the derived equality sees the change |
| Locators.NormalizedLocatorsCompareEqual | network-hypervisor/src/vl1/locator.rs:40-41 | locators created from the same endpoints in any order compare Equal |
| Locators.HashInput | network-hypervisor/src/vl1/locator.rs:166-174 | a signed locator is hashed by one write of its signature; an unsigned one by a first write that is not a byte write, then one write more than its endpoints |
| Locators.SignatureIsHashIdentity | network-hypervisor/src/vl1/locator.rs:166-167 | with a non-empty signature the hash input is the signature alone, so equal signatures hash alike |
| Locators.HashInputDetermines | network-hypervisor/src/vl1/locator.rs:166-174 | the hash input determines the signature when there is one, and otherwise signer, timestamp and endpoints |
| Locators.U64Of | network-hypervisor/src/vl1/locator.rs:96 | `timestamp as u64` is a 64-bit value that `as i64` turns back into the timestamp |
| Locators.I64Of | network-hypervisor/src/vl1/locator.rs:118 | `as i64` on a u64 keeps the same 64 bits (equal modulo 2^64) and is negative exactly when the top bit is set |
| Buffers.ReadVarintEncoded | network-hypervisor/src/vl1/locator.rs:97 | a varint reads back as the value written, leaving what follows |
| Buffers.ReadFixedEncoded | network-hypervisor/src/vl1/locator.rs:96 | a fixed-width big-endian value reads back as written |
| Buffers.ReadBytesEncoded | network-hypervisor/src/vl1/locator.rs:104 | raw signature bytes read back as written |
| Buffers.ReadBytes | network-hypervisor/src/vl1/locator.rs:126 | reading n bytes fails exactly when fewer remain; otherwise it splits the input at n |
| Buffers.Buffer.AppendBytes | network-hypervisor/src/vl1/locator.rs:104 | an append fails, leaving the buffer alone, exactly when it would pass the capacity |
| Vl1.ReadAddressEncoded | network-hypervisor/src/vl1/locator.rs:94 | an address reads back as the address written |
| Vl1.ReadAddress | network-hypervisor/src/vl1/locator.rs:113-114 | an address read fails exactly when fewer than five bytes remain |
| Sorting.InsertionSortCorrect | network-hypervisor/src/vl1/locator.rs:40 | the sort returns a sorted permutation of its input |
| Sorting.DedupCorrect | network-hypervisor/src/vl1/locator.rs:41 | dedup of a sorted list keeps the same members, stays sorted and leaves no two equal neighbours |
| Paths.InstanceIdCounter.constructor | zerotier-network-hypervisor/src/vl1/path.rs:24 | the instance counter starts at 0 |
| Paths.InstanceIdCounter.FetchAdd | zerotier-network-hypervisor/src/vl1/path.rs:48 | fetch_add returns the counter's value and increments it |
| Paths.Path.constructor | zerotier-network-hypervisor/src/vl1/path.rs:43-53 | never sent, never received, created at time_ticks, empty table, instance id taken from the counter |
| Paths.NewPathsHaveDistinctIds | zerotier-network-hypervisor/src/vl1/path.rs:48 | two paths built from the same counter have distinct instance ids |
| Paths.Evict | zerotier-network-hypervisor/src/vl1/path.rs:63-74 | at or below the bound the table is unchanged; above it exactly n/3 records go, none younger than a record that stays, and the rest are unchanged |
| Paths.CollectEntries | zerotier-network-hypervisor/src/vl1/path.rs:65-69 | the collected (tick, id) pairs list every record exactly once with its creation tick |
| Paths.SortedListing | zerotier-network-hypervisor/src/vl1/path.rs:70 | sorting the listing by tick keeps it a listing of the table, oldest first |
| Paths.RemoveFirst | zerotier-network-hypervisor/src/vl1/path.rs:71-73 | the removal loop takes out exactly the ids of the first n entries, n records in all |
| Paths.RemovingFirstEvictsOldest | zerotier-network-hypervisor/src/vl1/path.rs:70-73 | removing the first n entries of the sorted listing removes no record younger than one kept |
| Paths.EvictionRestoresBound | zerotier-network-hypervisor/src/vl1/path.rs:63-74 | a table at most one over the bound is back within the bound after eviction |
| Paths.Path.EvictOldest | zerotier-network-hypervisor/src/vl1/path.rs:63-74 | the eviction applied to the path's table, timestamps untouched |
| Paths.FragmentedPacket.AddFragment | zerotier-network-hypervisor/src/vl1/path.rs:76 | adding a fragment keeps the record's creation tick and appends the fragment to those already held |
| Paths.Admit | zerotier-network-hypervisor/src/vl1/path.rs:76-80 | a record comes back exactly when its id has left the table, and no id but the packet's is added |
| Paths.AdmitReusesOrCreates | zerotier-network-hypervisor/src/vl1/path.rs:76 | an existing record is reused with the fragment added; a fresh one stamped with time_ticks is made only when the id is absent |
| Paths.AdmitCompletion | zerotier-network-hypervisor/src/vl1/path.rs:76-80 | the record comes back exactly when add_fragment reports completion, and then its id is gone; otherwise None and the id stays with the updated record |
| Paths.AdmitLeavesOthers | zerotier-network-hypervisor/src/vl1/path.rs:76-80 | every other id keeps its record and the table grows by at most one |
| Paths.CompletedIdStartsAfresh | zerotier-network-hypervisor/src/vl1/path.rs:76-80 | after a packet completes, a later fragment with its id starts a new record |
| Paths.ReceiveKeepsTableBounded | zerotier-network-hypervisor/src/vl1/path.rs:63-80 | a table at most one over the bound is still at most one over after receive_fragment |
| Paths.Path.ReceiveFragment | zerotier-network-hypervisor/src/vl1/path.rs:58-81 | the table is first evicted as above, then the fragment is admitted; the result and the new table are the admission's |
| Paths.Path.LogReceiveAnything | zerotier-network-hypervisor/src/vl1/path.rs:84-86 | sets the receive time and nothing else |
| Paths.Path.LogSendAnything | zerotier-network-hypervisor/src/vl1/path.rs:89-91 | sets the send time and nothing else |
| Paths.Unexpired | zerotier-network-hypervisor/src/vl1/path.rs:94 | retain only drops records: the ids kept are among the table's |
| Paths.UnexpiredKeepsExactlyYoung | zerotier-network-hypervisor/src/vl1/path.rs:94 | pruning keeps exactly the records with time_ticks - ts_ticks < FRAGMENT_EXPIRATION, unchanged |
| Paths.UnexpiredMonotone | zerotier-network-hypervisor/src/vl1/path.rs:94 | pruning at one tick and then at a later one equals pruning at the later one |
| Paths.Path.Service | zerotier-network-hypervisor/src/vl1/path.rs:93-107 | prunes the table, returns the classification, moves the send time to now exactly on NeedsKeepalive, and leaves the receive and create times alone |
| Paths.Classify | zerotier-network-hypervisor/src/vl1/path.rs:95-106 | a keepalive is only asked for when nothing was sent for PATH_KEEPALIVE_INTERVAL, and a path is only Dead when neither the last receive nor the creation lies within PATH_EXPIRATION_TIME |
| Paths.ClassifyNeedsKeepaliveIff | zerotier-network-hypervisor/src/vl1/path.rs:95-98 | NeedsKeepalive iff something was received within PATH_EXPIRATION_TIME and nothing sent for PATH_KEEPALIVE_INTERVAL |
| Paths.ClassifyDeadIff | zerotier-network-hypervisor/src/vl1/path.rs:95-106 | Dead iff neither the last receive nor the creation is within PATH_EXPIRATION_TIME |
| Paths.KeepaliveOncePerInterval | zerotier-network-hypervisor/src/vl1/path.rs:96-98 | once a keepalive is reported, none is reported again within the keepalive interval |
| Paths.ServiceTwice | zerotier-network-hypervisor/src/vl1/path.rs:93-107 | servicing twice at the same tick never reports a second keepalive |
| Paths.KeepaliveAtEveryServiceCall | zerotier-network-hypervisor/src/vl1/path.rs:15 | serviced every SERVICE_INTERVAL_MS, a path that keeps receiving is due a keepalive at each call after the one that sent the last |
| Paths.FreshPathLifetime | zerotier-network-hypervisor/src/vl1/path.rs:102-106 | a path that never sent or received is Ok for PATH_EXPIRATION_TIME after creation, then Dead |
| Paths.PacketIdHasher.constructor | zerotier-network-hypervisor/src/vl1/path.rs:110-111 | a hasher holds exactly the u64 state it is built with |
| Paths.PacketIdHasher.WriteU64 | zerotier-network-hypervisor/src/vl1/path.rs:125-131 | the state becomes the three xorshift steps applied to state + i with 64-bit wrap-around |
| Paths.Mix | zerotier-network-hypervisor/src/vl1/path.rs:126-130 | the three xorshift steps of write_u64 on the running state (no contract: the bit-vector facts hold only on the written-out expression, see MixInvertible) |
| Paths.MixInvertible | zerotier-network-hypervisor/src/vl1/path.rs:126-130 | undoing the three xorshift steps in reverse order recovers the input, so write_u64 loses no information |
| Paths.PacketIdHash | zerotier-network-hypervisor/src/vl1/path.rs:52 | the hash of a packet id in the fragment table: one write_u64 on a hasher started at 0 (no contract; HashWith ties the hasher to it) |
| Paths.PacketIdHasher.Finish | zerotier-network-hypervisor/src/vl1/path.rs:115-117 | finish returns the state unchanged |
| Paths.PacketIdHasher.Write | zerotier-network-hypervisor/src/vl1/path.rs:120-122 | byte input is always refused |
| Paths.PacketIdHasher.BuildHasher | zerotier-network-hypervisor/src/vl1/path.rs:138-140 | the built hasher starts from state 0, whatever the builder's state |
| Paths.HashWith | zerotier-network-hypervisor/src/vl1/path.rs:52 | a key's hash depends on the key alone and never on the seed the table was built with |

## Left out

- Concurrency: the Mutex around the fragment table, the atomics around the timestamps and `lazy_static` are modelled single-threaded. The global instance counter is an object passed to the constructor.
- Cryptography: `Identity::sign`/`verify` are uninterpreted function fields of `Identity`. The random seed from `xorshift64_random` is a constructor parameter.
- Buffer, address and endpoint byte layouts are concrete stand-ins (see above), not the real formats. The real varint length limit and any endpoint-specific encodings are not modelled.
- PACKET_SIZE_MAX, FRAGMENT_MAX_INBOUND_PACKETS_PER_PATH, FRAGMENT_EXPIRATION, PATH_KEEPALIVE_INTERVAL, PATH_EXPIRATION_TIME and NEVER_HAPPENED_TICKS come from protocol.rs and util, which are not part of this model. They are stand-in values. The proofs use their signs, the bound being at least 2, and NEVER_HAPPENED_TICKS <= -PATH_EXPIRATION_TIME (FreshPathLifetime needs it, so that a path that never received looks expired from tick 0 on).
- `FragmentedPacket::add_fragment` (fragmentedpacket.rs is not part of this model): adding a fragment appends it to the record, and the completion decision is a caller-supplied oracle on the record.
- `PooledPacketBuffer` and the fragment's payload are opaque bytes.
- Tick arithmetic uses mathematical integers: i64 wrap-around in `time_ticks - ts` is not modelled.
- Paths.InstanceIdCounter.FetchAdd: usize wrap-around of the counter is not modelled, so distinct ids are proved for an unbounded counter.
- Unstable-sort tie order: the sorts are an insertion sort specified by sortedness and permutation only. Which of several equally old records the eviction removes is not pinned down beyond that.
- The HashMap bucket layout is not modelled. The table is a `map`, and the hasher is modelled on its own.
- Paths.MixInvertible: stated on the three steps written out, not on `Mix` as a function. Injectivity of `PacketIdHash` as a function is not proved: the bit-vector identity does not go through once the step functions are unfolded.
- Locators.UnmarshalAt: models the release build, where the extension skip wraps modulo 2^64; the debug build's overflow panic is not modelled. A 32-bit `usize` is not modelled either.
- Locators.UnmarshalEncoded: the round trip is stated for buffers shorter than 2^64 bytes, as any real buffer is.
- Locators.MarshalThenUnmarshal: the buffer capacity is required to be below 2^64, as any real buffer's is.
- Locators.Unmarshal: the position of the caller's cursor after a failed unmarshal is not modelled; only the result is.
- Paths.PacketIdHasher.Write: the panic on byte input is modelled as an error result rather than as an abort.
- Path accessors and the Locator getters (`subject`, `signer`, `timestamp`, `endpoints`) are plain field reads of the datatype.

## Findings

| source | as written | input that shows it | evidently intended | confidence | as-written member | corrected member |
|---|---|---|---|---|---|---|
| network-hypervisor/src/vl1/locator.rs:124 | the extension length is added to the cursor with a wrapping `usize` add (a panic in a debug build), so a huge declared length moves the cursor backwards | subject 1, signer 1, timestamp 0, no endpoints, extension length 2^64 - 11: the header is 29 bytes, the skip lands at 18, the endpoint count 0 is read as an empty signature and a 19-byte locator is returned | the skip moves forward, and an extension running past the end is an UnexpectedEof | not executed | Locators.ExtensionWrapReadsBackwards | Locators.UnmarshalCheckedReadsForward |
