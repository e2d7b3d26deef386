# Grafain, modelled and proved in Dafny

Grafain is a Tendermint chain that keeps a whitelist of container images and decides, as a Kubernetes
admission webhook, which pods may start. This project models three parts of it and proves what they
promise.

* **The wire codec.** Reading and writing the messages of `pkg/rbac` and `pkg/app` in the format of the
  Protocol Buffers Encoding guide (sections "Base 128 Varints", "Message Structure", "Length-Delimited
  Records", "Groups" and "Last One Wins"), with the generated code's in-place buffers and 64-bit wrapping
  indices.
* **The RBAC engine.** Composite keys and prefix scans for role bindings, the depth-first walk over role
  inclusions that may be cyclic, the permissions gathered into the context, the decision on a message, and
  the genesis data that makes the walk infallible.
* **What is built on the two.** Framed transaction streams turned into batches and proposals, sign bytes,
  the client nonce, and the artifact whitelist with the admission of pods.

## How the files fit together

| file | content |
|---|---|
| `Wire.dfy` | what the format means, on byte strings: varints, fields, groups, a decoder that is generic in the message type |
| `WireCode.dfy` | the generated code's loops over buffers, proved against `Wire.dfy` |
| `RbacCodec.dfy`, `RbacRecords.dfy` | the four messages of `pkg/rbac`: their meaning, and the mutable records with Size, MarshalTo and Unmarshal |
| `AppCodec.dfy`, `AppRecords.dfy` | Tx, ProposalOptions and the two batch messages; sign bytes |
| `BigEndian.dfy`, `Streams.dfy`, `Commands.dfy` | sequence keys, frames, batches, proposal options |
| `ByteOrder.dfy`, `Bindings.dfy`, `RoleGraph.dfy`, `Access.dfy`, `Decorators.dfy`, `Genesis.dfy`, `GenesisData.dfy` | the RBAC engine |
| `Nonces.dfy` | the client nonce |
| `Whitelist.dfy` | artifact handlers and pod admission |

Each imperative file is proved against specification functions; what the source promises is proved about
those functions, and what they compute is pinned down by lemmas that use literal bytes, numbers and the input
data only, not their names for it. A decoder is a step function per message type, `step(message, field)`, and
`Wire.Decode(step, m, bytes)` decodes into the message `m`, so merging, concatenation and unknown fields are
proved once and for all message types. `None` is a failed decoding.

Messages of `weave` packages (`cash.SendMsg` and the like) are opaque byte strings; a parameter `Accepts`
says which byte strings their own decoders take. `Condition.Address()` is a function parameter. What the
chain answers to a query is a parameter.

## Findings

Where the code does not do what its text suggests, the model follows the code and a lemma says so.

* `BatchLosesMessages`: a proposal built from a batch silently drops the messages that have no case in the
  inner switch, among them types the batch command itself accepts. `BatchSurvives` gives the exact condition
  under which nothing is lost.
* `CutFrame`, `DroppedHeader`: a transaction stream cut inside or right behind the header of its last frame
  ends without an error, and the frame is lost, if and only if the part of the header that is there has a
  byte other than zero, that is, if the body is too long for the missing header bytes. A cut inside the body,
  or one that leaves only zeros, is an error.
* `CountsExactlyWhen`, `NegativeSequenceRestarts`: a cached nonce that has climbed to zero is taken for an
  uninitialised one, so counting works exactly for sequences that are not negative or stay at most zero, and
  do not overflow.
* `KeyKernel`, `FitKernel`: two bindings with 8-byte ids share a composite key if and only if they have the
  same id and addresses that agree on 20 bytes after padding with zeros. So addresses of one common length up
  to 20 never collide (`OneLengthIsInjective`), short addresses of different lengths may
  (`ShortAddressesCollide`), and behind an id that is too short the rest of an over-long address shows
  (`LongAddressesSpill`). The genesis loader stores 20-byte addresses only.
* `ChangesExactlyWhen`, `LastsExactlyWhen`, `OwnerIsReplaced`: a deletion needs the signature of the stored
  owner, but a creation only that of the owner it names, so a stored record is changed without its owner's
  signature exactly by a valid creation signed by the owner it names.

## Model

| member | source | states |
|---|---|---|
| Wire.VarintRoundTrip | pkg/rbac/codec.pb.go:697-709 | for every uint64 and whatever follows, reading a written varint gives the value back, from exactly its 1 to 10 bytes |
| Wire.VarintBytes | pkg/rbac/codec.pb.go:558-566 | a varint is written in groups of seven bits, least significant first, with the top bit on all but the last byte, and never longer than needed |
| Wire.VarintReads | pkg/rbac/codec.pb.go:697-709 | any run of bytes up to one below 128, shortest form or not, reads as the number of its seven-bit groups cut to 64 bits if it has at most ten bytes; a longer or unfinished one is an error |
| Wire.VarintStable | pkg/rbac/codec.pb.go:697-709 | appending bytes never changes a varint that has been read |
| Wire.SkipStable | pkg/rbac/codec.pb.go:1470-1574 | appending bytes never changes the length of a skipped field, nested groups included |
| Wire.NextFieldStable | pkg/rbac/codec.pb.go:690-974 | appending bytes never changes the first field of an input |
| Wire.DecodeConcat | pkg/rbac/codec.pb.go:690-974 | decoding is an action over concatenation, for every message type and every start value: decoding x then y is decoding x followed by y |
| Wire.UnknownFieldTransparent | pkg/rbac/codec.pb.go:951-967 | a complete field the message type ignores changes no result, at any field boundary |
| Wire.IllegalTagFails | pkg/rbac/codec.pb.go:711-718 | every tag with wire type 4, 6 or 7, or whose number is no positive int32, ends every decoding |
| Wire.TruncatedFieldFails | pkg/rbac/codec.pb.go:690-974 | every proper non-empty part of a complete field ends every decoding |
| Wire.NextFieldOfRec | pkg/rbac/codec.pb.go:374-428 | a written record is read back as its number and body, whatever follows it |
| Wire.DecodeOfRecs | pkg/rbac/codec.pb.go:690-974 | decoding a written list of records is one step per record, in order |
| Wire.SkipExact | pkg/rbac/codec.pb.go:1470-1574 | skipping consumes exactly one written field of wire type 0, 1, 2, 5 or a balanced nested group, whatever follows |
| Wire.SkipGroupExact | pkg/rbac/codec.pb.go:1532-1563 | skipping a group body consumes exactly its fields and its own end tag, at any depth of nesting |
| Wire.UnknownFieldIsWhole | pkg/rbac/codec.pb.go:951-967 | every well-formed field of a number up to 2^29-1 is a complete field for the decoder |
| WireCode.EncodeVarint | pkg/rbac/codec.pb.go:558-566 | writes exactly the varint's bytes at the offset, returns the offset behind them and changes nothing else in the buffer |
| WireCode.Sov | pkg/rbac/codec.pb.go:677-686 | the size function counts the bytes the encoder writes, 1 to 10 for every uint64 |
| WireCode.ReadVarint | pkg/rbac/codec.pb.go:697-709 | the shift loop, with 64-bit truncation of the shifted groups, reads exactly the varint at the index or fails exactly when there is none; it never leaves the input |
| WireCode.SkipCodec | pkg/rbac/codec.pb.go:1470-1574 | with wrapping lengths and indices the result lies inside the input exactly when a complete field stands there, and is then its length; it terminates and stays in bounds on every non-empty input |
| WireCode.SkipGroupCodec | pkg/rbac/codec.pb.go:1532-1563 | every turn of the group loop advances, and the loop ends at the matching end tag or fails exactly when there is none |
| WireCode.ReadDelimited | pkg/rbac/codec.pb.go:724-756 | the length, negative-length, wrap-around and end-of-input checks accept exactly the bodies inside the input |
| WireCode.SkipField | pkg/rbac/codec.pb.go:951-966 | the default case accepts exactly complete fields and moves exactly behind them |
| WireCode.ReadField | pkg/rbac/codec.pb.go:690-967 | one turn of any Unmarshal loop: it fails only if decoding fails, hands over the body of a known field and skips an unknown one without effect on the result |
| RbacCodec.RoleDecodes | pkg/rbac/codec.pb.go:690-974 | decoding a role's bytes into any role merges the two: last non-empty scalar, repeated fields appended, metadata merged |
| RbacCodec.BindingDecodes | pkg/rbac/codec.pb.go:975-1131 | the same for role bindings |
| RbacCodec.PrincipalDecodes | pkg/rbac/codec.pb.go:1132-1318 | the same for principals with nested signatures, empty entries included |
| RbacCodec.RoleRoundTrip | pkg/rbac/codec.pb.go:355-428 | unmarshalling a marshalled role gives an equal role |
| RbacCodec.BindingRoundTrip | pkg/rbac/codec.pb.go:430-468 | the same for role bindings |
| RbacCodec.PrincipalRoundTrip | pkg/rbac/codec.pb.go:470-520 | the same for principals with their nested signatures |
| RbacCodec.SignatureRoundTrip | pkg/rbac/codec.pb.go:522-556 | the same for named signatures |
| RbacCodec.RoleConcatenation | pkg/rbac/codec.pb.go:690-974 | decoding two concatenated role encodings gives the "Last One Wins" merge |
| RbacCodec.PrincipalConcatenation | pkg/rbac/codec.pb.go:1132-1318 | the same for principals |
| RbacCodec.RoleIgnoresUnknown | pkg/rbac/codec.pb.go:951-967 | any field numbered above 7, of any wire type or a nested group, between two parts of an input changes nothing |
| RbacCodec.SmallMessagesIgnoreUnknown | pkg/rbac/codec.pb.go:1108-1124 | the same for role bindings and named signatures and numbers above 3, and for principals and numbers above 4 |
| RbacCodec.RoleLayout | pkg/rbac/codec.pb.go:365-428 | the bytes of a written role with its literal tags 0x0a to 0x3a, empty scalars left out, empty entries kept |
| RbacCodec.BindingLayout | pkg/rbac/codec.pb.go:440-468 | the bytes of a written role binding with its literal tags |
| RbacCodec.SignatureLayout | pkg/rbac/codec.pb.go:532-556 | the bytes of a written named signature with its literal tags |
| RbacCodec.PrincipalLayout | pkg/rbac/codec.pb.go:480-520 | the bytes of a written principal with its literal tags and nested signatures |
| RbacCodec.RoleReads | pkg/rbac/codec.pb.go:755-950 | what each literal tag does to a role that is being decoded: scalars are set, also to nothing, repeated fields appended |
| RbacCodec.BindingReads | pkg/rbac/codec.pb.go:1040-1107 | the same for role bindings |
| RbacCodec.SignatureReads | pkg/rbac/codec.pb.go:1348-1445 | the same for named signatures |
| RbacCodec.PrincipalReads | pkg/rbac/codec.pb.go:1197-1260 | the same for the scalars of principals |
| RbacCodec.NestedReads | pkg/rbac/codec.pb.go:1261-1294 | a nested signature is appended if its own bytes decode and ends the decoding if not |
| RbacCodec.MetadataReads | pkg/rbac/codec.pb.go:719-754 | metadata is decoded into what is there and ends the decoding if it does not decode, in all three messages that have it |
| RbacCodec.SchemaReads | pkg/rbac/codec.pb.go:719-754 | the schema version is the varint behind 0x08 cut to 32 bits, and the last one counts |
| RbacCodec.OtherWireTypesFail | pkg/rbac/codec.pb.go:719-722 | a known number with any other wire type than 2 ends the decoding, in all four messages |
| RbacRecords.RoleRecord.Size | pkg/rbac/codec.pb.go:567-606 | the number of bytes of the encoding |
| RbacRecords.RoleRecord.MarshalTo | pkg/rbac/codec.pb.go:365-428 | writes exactly Size bytes from the offset on, all inside the buffer, and leaves the rest of it alone |
| RbacRecords.RoleRecord.Marshal | pkg/rbac/codec.pb.go:355-363 | the allocated buffer is filled exactly |
| RbacRecords.RoleRecord.Unmarshal | pkg/rbac/codec.pb.go:690-974 | succeeds exactly when the bytes decode, and then the record holds the decoded value |
| RbacRecords.BindingRecord.MarshalTo | pkg/rbac/codec.pb.go:440-468 | writes exactly the encoding, in place |
| RbacRecords.BindingRecord.Unmarshal | pkg/rbac/codec.pb.go:975-1131 | succeeds exactly when the bytes decode, and then the record holds the decoded value |
| RbacRecords.PrincipalRecord.Size | pkg/rbac/codec.pb.go:629-654 | the number of bytes of the encoding, nested messages with their headers |
| RbacRecords.PrincipalRecord.MarshalTo | pkg/rbac/codec.pb.go:480-520 | nested signatures write themselves into the same buffer behind tag and length; exactly the encoding is written |
| RbacRecords.PrincipalRecord.Unmarshal | pkg/rbac/codec.pb.go:1132-1318 | as for roles; signatures read before are kept, new ones are appended as new records |
| RbacRecords.SignatureRecord.MarshalTo | pkg/rbac/codec.pb.go:532-556 | writes exactly the encoding, in place |
| RbacRecords.SignatureRecord.Unmarshal | pkg/rbac/codec.pb.go:1319-1469 | succeeds exactly when the bytes decode, and then the record holds the decoded value |
| AppCodec.BatchDecodes | pkg/app/codec.pb.go:5976-6535 | decoding a batch's bytes appends its unions in order, unset ones included |
| AppCodec.SumSet | pkg/app/codec.pb.go:5112-5144 | a one-of field read from the wire replaces what the one-of held |
| AppCodec.OptionDecodes | pkg/app/codec.pb.go:6536-7078 | decoding the bytes of proposal options replaces the option when one is set and keeps it otherwise |
| AppCodec.TxDecodes | pkg/app/codec.pb.go:4981-5975 | decoding a transaction's bytes into any transaction merges the two |
| AppCodec.TxRoundTrip | pkg/app/codec.pb.go:2775-2828 | unmarshalling a marshalled transaction gives an equal one |
| AppCodec.TxInjective | pkg/app/codec.pb.go:2785-2828 | the bytes of a transaction determine it, whatever the foreign messages in it are |
| AppCodec.TxIgnoresUnknown | pkg/app/codec.pb.go:5952-5968 | a field number no case of Tx uses is ignored at any field boundary |
| AppCodec.OptionIgnoresUnknown | pkg/app/codec.pb.go:7055-7071 | the same for proposal options |
| AppCodec.BatchIgnoresUnknown | pkg/app/codec.pb.go:6039-6055 | the same for both batch messages and every number but 1 |
| AppCodec.UnionIgnoresUnknown | pkg/app/codec.pb.go:6512-6528 | the same for the unions of both batch messages |
| AppCodec.MessageTag | pkg/app/codec.pb.go:2830-3212 | the two literal tag bytes of every message type, for example 0x9a 0x03 for a cash send |
| AppCodec.BatchTag | pkg/app/codec.pb.go:2974-2988 | the literal tag bytes 0xe2 0x03 of a batch |
| AppCodec.KindsByNumber | pkg/app/codec.pb.go:5976-7603 | which field numbers Tx, both batches and proposal options have a case for |
| AppCodec.TxLayout | pkg/app/codec.pb.go:2785-2828 | the bytes of a written transaction with its literal tags, every signature, multisig id and message |
| AppCodec.SumLayout | pkg/app/codec.pb.go:3471-3485 | the bytes of written proposal options, batches with every union included |
| AppCodec.CashSendOnWire | pkg/app/codec.pb.go:2830-2844 | an empty cash send is written as 0x9a 0x03 0x00 and those bytes are read as it |
| AppCodec.TxReads | pkg/app/codec.pb.go:5010-5111 | what the tags 0x0a, 0x12 and 0x22 do to a transaction that is being decoded; a refused fee or signature ends the decoding |
| AppCodec.TxReadsMessage | pkg/app/codec.pb.go:5112-5951 | a message behind its tag replaces the one-of of a transaction, and a refused one ends the decoding |
| AppCodec.OptionReadsMessage | pkg/app/codec.pb.go:6536-7054 | the same for proposal options |
| AppCodec.UnionReadsMessage | pkg/app/codec.pb.go:6063-6511 | the same for the unions of a batch |
| AppCodec.BatchReads | pkg/app/codec.pb.go:5976-6038 | a union is appended to the batch if its bytes decode and ends the decoding if not |
| AppCodec.TxReadsBatch | pkg/app/codec.pb.go:5427-5461 | a batch behind 0xe2 0x03 replaces the one-of of a transaction if its bytes decode and ends the decoding if not |
| AppCodec.OptionReadsBatch | pkg/app/codec.pb.go:6775-6809 | the same for proposal options |
| AppCodec.OtherWireTypesFail | pkg/app/codec.pb.go:5112-5115 | a number a message has a case for, with any other wire type than 2, ends its decoding |
| AppCodec.CannotEncode | pkg/app/codec.pb.go:2785-2828 | a transaction cannot be written exactly when its fees, a signature, its message or a message in its batch cannot |
| AppRecords.OptionRecord.Marshal | pkg/app/codec.pb.go:3461-3485 | fails exactly when the foreign message in it cannot be written, and otherwise fills the allocated buffer with exactly the encoding |
| AppRecords.OptionRecord.Unmarshal | pkg/app/codec.pb.go:6536-7078 | succeeds exactly when the bytes decode, and then holds the decoded option |
| AppRecords.UnmarshalBatch | pkg/app/codec.pb.go:5976-6062 | the batch decoder appends exactly the decoded unions or fails exactly when they do not decode |
| AppRecords.UnmarshalUnion | pkg/app/codec.pb.go:6063-6535 | the union decoder keeps the last known field and fails exactly when the bytes do not decode |
| AppRecords.TxRecord.Size | pkg/app/codec.pb.go:4063-4089 | the number of bytes of the encoding |
| AppRecords.TxRecord.MarshalTo | pkg/app/codec.pb.go:2785-2828 | fails exactly when a foreign part cannot be written, and otherwise writes exactly Size bytes from the offset on and leaves the rest of the buffer alone |
| AppRecords.TxRecord.Unmarshal | pkg/app/codec.pb.go:4981-5975 | succeeds exactly when the bytes decode, and then holds the decoded transaction |
| AppRecords.TxRecord.GetSignBytes | pkg/app/tx.go:37-48 | the transaction is unchanged afterwards, whether marshalling fails or not; it fails exactly when a part other than the signatures cannot be written, and the bytes are those of the transaction without signatures |
| AppRecords.TxRecord.SignTx | pkg/client/grafain_client.go:95-102 | appends one signature over the sign bytes, or changes nothing if marshalling or the signer fails |
| AppRecords.SignersAgree | pkg/app/tx.go:37-48 | any signers one after the other, failing ones included, all sign the same bytes, and the signatures of those that succeed end up in signing order |
| AppRecords.SignBytesInjective | pkg/app/tx.go:37-48 | equal sign bytes mean equal fees, multisig ids and message |
| BigEndian.SequenceRoundTrip | cmd/grafaincli/common.go:83-96 | sequenceID and fromSequence are inverse in both directions, and exactly the other lengths are refused |
| BigEndian.SequenceBytes | pkg/rbac/init.go:128-132 | the eight bytes of an id, most significant first |
| Streams.HeaderIsRead | cmd/grafaincli/common.go:111-148 | a size header below 2^32 is read back, whatever follows |
| Streams.HeaderIsBytes | cmd/grafaincli/common.go:111-112 | the four bytes of a size header, most significant first, of the length cut to 32 bits |
| Streams.CutHeaderSize | cmd/grafaincli/common.go:144-148 | the size read from a header cut after c bytes is zero if and only if the length fits the missing bytes |
| Streams.FrameIsRead | cmd/grafaincli/common.go:105-159 | readTx on a written frame gives the transaction and leaves exactly what follows it |
| Streams.AnyFrameIsRead | cmd/grafaincli/common.go:144-159 | a complete frame with any body reads as a transaction if the body decodes and is an error if not |
| Streams.WriteTx | cmd/grafaincli/common.go:105-121 | nothing is written for a transaction that does not marshal; otherwise as much of its frame as the output takes, with that count, and success exactly when all of it is written |
| Streams.ReadTx | cmd/grafaincli/common.go:129-159 | reads one frame, tells end of file from errors, and leaves the rest of the input |
| Commands.MsgList | pkg/app/msg.go:29-63 | for both batch messages: all messages in order, or an error exactly when a union is unset |
| Commands.CollectBatch | cmd/grafaincli/cmd_batch.go:30-132 | the loop succeeds exactly when every frame up to the end reads and is batchable, and then holds one union per message |
| Commands.CmdAsBatch | cmd/grafaincli/cmd_batch.go:18-139 | succeeds exactly when the input collects, the batch marshals and the output takes the frame; nothing is written before the input has been collected, and no more than the one frame |
| Commands.CollectFrames | cmd/grafaincli/cmd_batch.go:30-132 | a stream of written frames yields exactly its messages in order, or fails if one is not batchable |
| Commands.CollectedMessages | cmd/grafaincli/cmd_batch.go:40-138 | which transactions can be batched, that what is collected are their own messages in order, and that the batch transaction holds those and nothing else |
| Commands.UndecodableFrameFails | cmd/grafaincli/common.go:154-157 | a complete frame whose body is no transaction ends the command with an error |
| Commands.StreamToBatch | cmd/grafaincli/cmd_batch.go:30-138 | the frame written for a stream of batchable transactions, read back, lists exactly their messages in order |
| Commands.CutHeaderIsDropped | cmd/grafaincli/common.go:144-152 | a stream that ends inside or right behind a header ends without an error if some byte of that header is not zero, and with an error if all are |
| Commands.CutBodyFails | cmd/grafaincli/common.go:150-152 | a stream cut inside a body is an error |
| Commands.CutFrame | cmd/grafaincli/common.go:142-152 | for every stream and every cut of its last frame after c bytes: an error if part of the body is there or the body is shorter than 256^(4-c), and otherwise the same result as without that frame |
| Commands.DroppedHeader | cmd/grafaincli/common.go:142-152 | a header that announces five bytes is dropped, its first byte alone is an error |
| Commands.ProposalMessages | cmd/grafaincli/cmd_gov.go:115-185 | the loop over a batch keeps exactly the messages with a case |
| Commands.ToOption | cmd/grafaincli/cmd_gov.go:67-226 | fails exactly for a missing or unsupported message, a batch that does not list or an option that does not marshal, and otherwise gives the encoded option |
| Commands.OptionExists | cmd/grafaincli/cmd_gov.go:80-113 | an option is built exactly for a supported message and for a batch with no unset union |
| Commands.DecodeProposalOptions | pkg/app/gov_handler.go:18-25 | the message of the decoded option, or an error |
| Commands.ProposableKinds | cmd/grafaincli/cmd_gov.go:117-184 | only messages of the batch with a case are kept; all are kept exactly when all have a case |
| Commands.ProposableSplits | cmd/grafaincli/cmd_gov.go:115-185 | messages are kept or dropped one by one and in order, so the result is the subsequence of those with a case |
| Commands.BatchToProposal | cmd/grafaincli/cmd_gov.go:110-190 | decoding the option built from any batch lists exactly the messages with a case, in order |
| Commands.BatchSurvives | cmd/grafaincli/cmd_gov.go:110-190 | the option holds the whole batch if and only if every message has a case |
| Commands.BatchLosesMessages | cmd/grafaincli/cmd_gov.go:110-190 | a batch of batchable messages that becomes an empty proposal |
| Commands.MessageToProposal | cmd/grafaincli/cmd_gov.go:80-219 | every other supported message comes back as itself |
| ByteOrder.SortSorts | pkg/rbac/context.go:38-46 | sorting conditions gives a sorted permutation |
| ByteOrder.LessIsLexicographic | pkg/rbac/context.go:38-46 | the order is a proper prefix, or a smaller byte at the first difference |
| ByteOrder.SortedIsUnique | pkg/rbac/context.go:38-46 | two sorted lists with the same elements are the same list, since the byte order is total |
| Bindings.BuildKey | pkg/rbac/bucket.go:98-103 | the two copies fill the key array with address and id, cut or padded to their places |
| Bindings.KeyOfSized | pkg/rbac/bucket.go:98-103 | with a 20-byte address and an 8-byte id the key is their concatenation and both can be cut out again |
| Bindings.KeyKernel | pkg/rbac/bucket.go:98-103 | exactly when two bindings, of any sizes, share a key; with 8-byte ids, if and only if ids and fitted addresses are equal |
| Bindings.FitKernel | pkg/rbac/bucket.go:98-103 | two addresses fit alike if and only if they agree on 20 bytes after padding with zeros |
| Bindings.OneLengthIsInjective | pkg/rbac/bucket.go:98-103 | addresses of one common length up to 20 fit alike only if they are equal |
| Bindings.ShortAddressesCollide | pkg/rbac/bucket.go:98-103 | two short addresses of different lengths with the same key |
| Bindings.LongAddressesSpill | pkg/rbac/bucket.go:98-103 | two over-long addresses that fit alike but have different keys with an empty id |
| Bindings.RoleBindingBucket.Create | pkg/rbac/bucket.go:72-80 | stores the binding under its composite key and keeps the store in key order |
| Bindings.RoleBindingBucket.FindRoleIDsByAddress | pkg/rbac/bucket.go:82-93 | fills the result with the ids cut out of the keys under the address prefix |
| Bindings.StoredAreCreated | pkg/rbac/bucket.go:72-80 | after any sequence of Create calls, with addresses and ids of any size, the store holds exactly the last call of every key |
| Bindings.StoredRecords | pkg/rbac/bucket.go:72-80 | with proper sizes the stored records are those of the calls: key `rolebind:`, address and id, and the fields of the record |
| Bindings.ScanRefinesBinding | pkg/rbac/bucket.go:82-103 | after any sequence of Create calls the scan for any address finds exactly the id parts of the keys that begin with it, each once and ascending if the address has full length; with 8-byte ids those are the ids bound to an address that fits it, and with 20-byte addresses exactly the ids bound to it |
| RoleGraph.LoadRolesFrom | pkg/rbac/decorator.go:78-95 | the recursion terminates on every store; whatever it adds is stored and reachable, the processed map stays closed except for roles still being walked, and a failure means a reachable role is missing |
| RoleGraph.LoadRoles | pkg/rbac/decorator.go:78-95 | fails exactly when the root reaches a missing role, and otherwise adds exactly the roles reachable from the root |
| RoleGraph.SettledHasClosure | pkg/rbac/decorator.go:79-81 | a map left by earlier roots that contains the root contains everything it reaches, so returning early is right |
| RoleGraph.ClosuresOf | pkg/rbac/decorator.go:56-75 | the roles loaded for several roots are all stored roles some root reaches |
| RoleGraph.ClosuresOrder | pkg/rbac/decorator.go:56-75 | the order and multiplicity of the roots do not matter |
| Access.WildcardOrder | pkg/rbac/model.go:34-47 | a wildcard allows all that another allows if and only if its stem is a prefix of the other's |
| Access.WildcardScope | pkg/rbac/model.go:34-47 | a wildcard covers everything below its dot that is no wildcard itself, but neither the parent path nor itself |
| Access.ExactPermission | pkg/rbac/model.go:34-41 | a permission that does not end in a star allows itself and nothing else |
| Access.WildcardPermission | pkg/rbac/model.go:34-47 | one that does allows exactly what begins with the rest of it and does not end in a star |
| Access.RoleConditionInjective | pkg/rbac/model.go:12-14 | different role ids have different conditions |
| Access.RoleConditionBytes | pkg/rbac/model.go:12-14 | the condition of a role is `rbac/role/` and its id |
| Access.WithRBAC | pkg/rbac/context.go:19-36 | for every enumeration order of the role map the conditions are the sorted union with the parent's and the permissions the union with the parent's, whose map is updated in place |
| Access.ConditionsAreDetermined | pkg/rbac/context.go:19-46 | any two enumeration orders give the same condition list |
| Access.ConditionsExactly | pkg/rbac/context.go:19-36 | the listed conditions are those of the parent and one for each role, and no other |
| Access.HasAddress | pkg/rbac/context.go:58-65 | true exactly for the addresses of listed conditions |
| Access.HasPermission | pkg/rbac/context.go:70-86 | true exactly when the context holds the permission itself, or the permission does not end in a star and the context holds a starred prefix of it |
| Access.PermitsIsMatching | pkg/rbac/context.go:70-86 | the exact lookup adds something to matching if and only if the permission is itself a held wildcard |
| Access.PermitsByPrefix | pkg/rbac/context.go:70-86 | what any set of permissions permits, in terms of characters |
| Access.PermitsMembersOnly | pkg/rbac/context.go:70-86 | a set without wildcards permits exactly its members |
| Decorators.BoundRolesOf | pkg/rbac/decorator.go:59-71 | the loaded roots are exactly the ids bound to the address of some condition |
| Decorators.CostIsTenEach | pkg/rbac/decorator.go:69 | 10 gas per loaded binding as long as that fits in 64 bits |
| Decorators.AuthNDecorator.AuthRoles | pkg/rbac/decorator.go:56-76 | fails exactly when a bound role does not load; otherwise the context carries the closure of all bound roles and the cost counts every binding of every condition |
| Decorators.AuthNDecorator.Check | pkg/rbac/decorator.go:32-44 | through both decorators: the next handler is called once, with the extended context, exactly when the message is admitted, and the cost is added to its gas payment |
| Decorators.AuthNDecorator.Deliver | pkg/rbac/decorator.go:47-54 | the same decision for Deliver |
| Decorators.AuthZDecorator.Check | pkg/rbac/decorator.go:115-125 | calls the next handler exactly when the message extracts and its path is permitted |
| Decorators.AuthZDecorator.Deliver | pkg/rbac/decorator.go:128-139 | the same decision for Deliver |
| Decorators.PermissionOfPath | pkg/rbac/decorator.go:141-145 | the permission of any path, position by position: prefix, dot, then the path with dots for slashes and lower case for upper case, so that no slash and no upper-case letter is left |
| Decorators.TwoPartPath | pkg/rbac/decorator.go:141-145 | a path of two plain parts resolves to prefix and parts joined by dots |
| Decorators.AdmitsMeansGranted | pkg/rbac/decorator.go:32-145 | from a context without RBAC data a message is admitted if and only if every bound closure loads and some signer is bound to a role reaching a role whose permission equals or allows its path |
| Decorators.AdmitsExactly | pkg/rbac/decorator.go:32-145 | the same for any context, with the roles of RBAC conditions and the permissions it holds already |
| Genesis.Store.AddRoles | pkg/rbac/init.go:72-100 | succeeds exactly when every role is valid and includes only earlier ids; role n then has the name, owner, permissions and encoded inclusions of the n-th genesis role |
| Genesis.Store.AddPrincipals | pkg/rbac/init.go:57-70 | succeeds exactly when all signatures are valid and no address occurs twice; every principal then has the name and signatures of the data |
| Genesis.Store.AddRoleBindings | pkg/rbac/init.go:102-126 | succeeds exactly when every binding names a stored role and a principal's signature |
| Genesis.Store.FromGenesis | pkg/rbac/init.go:40-55 | the three loads together and the complete store they leave, which is the one every later request is served from |
| Genesis.KeysOfRoles | pkg/rbac/init.go:72-100 | exactly the ids 1 to k are stored |
| Genesis.RoleFields | pkg/rbac/init.go:86-94 | every field of the stored role n in terms of the n-th genesis role and its own id |
| Genesis.PrincipalFields | pkg/rbac/init.go:59-65 | every field of the stored principals in terms of the data |
| Genesis.InclusionsPointBack | pkg/rbac/init.go:75-83 | every inclusion of a loaded role points to a strictly smaller, existing id |
| Genesis.ReachedAreEarlier | pkg/rbac/init.go:72-100 | ids are a rank: a role reaches only stored roles with ids up to its own |
| Genesis.LoadedIsAcyclic | pkg/rbac/init.go:72-100 | no role is reached from one it includes |
| Genesis.LoadedIsComplete | pkg/rbac/init.go:72-100 | no stored role reaches a missing one |
| Genesis.AuthenticationNeverFails | pkg/app/app.go:79-97 | with a loaded genesis, authentication of any conditions never fails on a missing role |
| Genesis.AdmissionAfterGenesis | pkg/app/app.go:50-72 | from genesis to decision: a message is admitted if and only if some signer's address has a genesis binding to a role that reaches a matching permission |
| Genesis.ServeAll | pkg/app/app.go:50-97 | through any sequence of requests after genesis the loaded store stays as it is, and the handler behind the decorators is reached exactly by the requests a genesis binding covers, checked or delivered |
| GenesisData.PermissionIsPattern | pkg/rbac/model.go:18 | the permission check accepts exactly the strings of the source's regular expression |
| GenesisData.RolesLoadExactly | pkg/rbac/init.go:72-100 | the roles load exactly when inclusions are earlier ids, owners have 20 bytes and permissions match the expression |
| GenesisData.PrincipalsLoadExactly | pkg/rbac/init.go:57-70 | the principals load exactly when names have 1 to 64 and addresses 20 bytes and no address stands in two places |
| GenesisData.BindingsLoadExactly | pkg/rbac/init.go:102-126 | the bindings load exactly when each names an id from 1 to k and an address of a principal |
| GenesisData.AdmissionByData | pkg/app/app.go:50-72 | from the genesis data alone: a message is admitted if and only if some signer's address has a binding whose role leads through listed inclusions to a role that lists the dotted path or a starred prefix of it |
| GenesisData.CoveredByData | pkg/app/app.go:50-97 | the same condition for the requests of a run |
| GenesisData.DottedPermissionAdmits | pkg/rbac/decorator.go:141-145 | a binding to a role that lists prefix.part.action admits the path part/action |
| Nonces.Nonce.Query | pkg/client/base_client.go:72-86 | a failed query changes nothing, a missing account is zero, any answer is remembered and returned |
| Nonces.Nonce.Next | pkg/client/base_client.go:93-106 | asks the chain exactly in the uninitialised state and otherwise adds one, in 64 bits |
| Nonces.RunCounts | pkg/client/base_client.go:72-106 | in every run of queries and nexts the k-th next after the last successful query of s returns s+k, with no gap or repeat, and failed queries change nothing |
| Nonces.NeverUninitialisedAgain | pkg/client/base_client.go:93-100 | after a first success the uninitialised state never comes back |
| Nonces.CountsExactlyWhen | pkg/client/base_client.go:93-106 | k nexts count on from s for all answers of the chain if and only if s is not negative and s+k fits, or s is negative and s+k does not pass zero |
| Nonces.NegativeSequenceRestarts | pkg/client/base_client.go:93-100 | from a sequence of -1 the second next asks the chain again |
| Whitelist.ChecksumIsPattern | pkg/artifact/model.go:15 | the checksum test accepts exactly the strings of the source's regular expression |
| Whitelist.ValidMsgExactly | pkg/artifact/msg.go:21-43 | a message is valid exactly with schema 1 or more, an image of 1 to 255 bytes and, for a creation, a checksum of the expression and an owner of 20 bytes |
| Whitelist.AnswersExactly | pkg/artifact/handler.go:64-117 | each answer with exactly the cases it is given in |
| Whitelist.CreateArtifactHandler.Deliver | pkg/artifact/handler.go:44-76 | errors in their order, no change on failure, and a message that passes validation is always stored under its image |
| Whitelist.DeleteArtifactHandler.Deliver | pkg/artifact/handler.go:91-117 | errors in their order, no change on failure, and otherwise exactly the one image removed |
| Whitelist.RunKeepsKeys | pkg/artifact/handler.go:44-117 | every run of deliveries keeps each record valid and stored under its own image |
| Whitelist.PresentIsListed | pkg/artifact/handler.go:44-117 | after any run an image is present if and only if it was present at the start or successfully created, and not successfully deleted since |
| Whitelist.RecordIsLatest | pkg/artifact/handler.go:44-61 | after any run the record of an image is the one it was last listed with |
| Whitelist.StaysWithoutOwner | pkg/artifact/handler.go:102-117 | any run of deletions that its owner did not sign leaves a record as it is |
| Whitelist.ChangesExactlyWhen | pkg/artifact/handler.go:44-117 | a delivery changes or removes a record if and only if it is valid, for that image, and either a creation with another record signed by the owner it names or a deletion signed by the stored owner; without the stored owner's signature it is such a creation |
| Whitelist.LastsExactlyWhen | pkg/artifact/handler.go:44-117 | a record lasts through every state of a run if and only if no delivery of the run, judged by that record alone, changes it |
| Whitelist.OwnerIsReplaced | pkg/artifact/handler.go:44-76 | an image of one owner, created again by another alone, then belongs to the other |
| Whitelist.PodValidator.DoWithContainers | pkg/webhook/validatingwebhook.go:75-99 | passes exactly when every query succeeds, finds a model and every model decodes; the first container whose image is refused decides |
| Whitelist.PodValidator.Handle | pkg/webhook/validatingwebhook.go:38-73 | an undecodable request is 400; a pod is allowed exactly when every image's query succeeds, finds a model and every model decodes, and otherwise the first failing image, containers first, decides: 404 if it has no model, else 500 |
| Whitelist.AdmittedIsListed | pkg/webhook/validatingwebhook.go:38-99 | after any run of deliveries a pod is admitted if and only if every image of its containers and init containers is listed, and is otherwise refused as not found |

## Left out

- Which error value a decoder returns, and what a record holds after a failed decoding: only that it fails is modelled.
- WireCode.SkipCodec: empty input is excluded by a precondition, because the source panics there; every call in the decoders is proved to pass non-empty input.
- Inputs and encodings of 2^63 bytes or more, which no Go slice can have; the frame lemmas need bodies below 2^32 bytes, as the size header truncates.
- AppRecords.TxRecord.Unmarshal: messages of `weave` packages are opaque byte strings that one parameter accepts or refuses when reading and another when writing; embedded messages are values, so aliasing between a transaction and its parts is not captured.
- AppRecords.TxRecord.SignTx: chain id and nonce belong to the foreign signing function and are part of the `sign` parameter.
- RbacCodec.RoleRoundTrip: nil and empty byte slices are one value, and pointers inside repeated fields are not nil.
- Field numbers above 2^29-1 and the number in an end-group tag: the model truncates and ignores them as the code does, and claims nothing more about them.
- The generated one-of helper functions based on reflection, getters and descriptors.
- The codecs of `pkg/artifact` and of cron tasks, which have the shape of those modelled.
- The internals of `weave`: the orm is a map or a key-ordered list, the id sequence starts at 1, the unique index refuses any key it holds already, the migration layer puts the current schema into a record without one, and the message of an unset one-of is an error.
- Streams.ReadTx: readers and writers are in memory, a read returns all that is there up to the size asked for, and the terminal test on stdin is left out.
- Commands.CmdAsBatch: flags and error texts are left out.
- Access.WithRBAC: the condition slice is a value, so an append or sort that reaches into the parent's slice is not captured; the shared permission map is.
- Decorators.AuthNDecorator.AuthRoles: a role whose lookup fails for any reason counts as missing, which the source treats alike; an error of the prefix scan itself is not modelled.
- Lower case of a message path is ASCII only.
- Genesis.Store.FromGenesis: JSON reading is left out, and at most 2^63-1 roles are loaded, the range of a Go slice.
- Genesis.ServeAll: the rest of the stack is an object that records its calls, has fixed answers and cannot reach the store; that no route writes roles or bindings is read from the list of routes, which has none for `pkg/rbac`.
- Nonces.Nonce.Next: the lock is released between the test and the query, so only sequential calls are specified.
- Whitelist.PodValidator.Handle: decoding of requests and of stored artifacts is a parameter, logging is left out.
- The checksum index of artifacts, their genesis data, and listing or searching artifacts from the client.
- Networking, Tendermint and Kubernetes plumbing, flags, keys and cryptography.
