# filum-crypto, verified model

A Dafny model of the blob codec of `filum-crypto` and of what is built on it, with proofs.

A blob is sealed under a random data key. The key is wrapped into a 72-byte header, and the plaintext is cut into
1 MiB segments that go through the STREAM construction (7-byte prefix, 4-byte big-endian counter, 1-byte last flag).
There are two encoders (slices, files) and two decoders (slices, files with one chunk of lookahead). The file decoder
publishes its output through a temp file, fsync and rename. Metadata fields use the same cipher with other associated
data, a vault holds the keys, and the Swift bindings carry records across the FFI as length-prefixed bytes.

The modules follow the source:

| module | what it holds |
|---|---|
| `ByteStrings`, `Context` | bytes, big-endian words, the associated data of `aad.rs` |
| `Gcm`, `Stream` | the AEAD as a lawful cipher and as an ideal cipher with a log; the STREAM encryptor and decryptor |
| `Segments`, `Blob`, `CodecLaws` | the body, header and in-memory codec of `blob.rs`; what encoders and decoders have to do with each other |
| `WireFormat` | blobs and metadata fields byte by byte, in plain numbers |
| `History`, `Metadata`, `Kdf`, `Vault` | integrity after any history of blob and field encryptions |
| `Files`, `FileEncoder` | readers with short reads, buffered writers, a file system with crashes; the streaming encoder |
| `Publish`, `Outcomes`, `Concurrency` | the file decoder as a process, what it comes to, many of them at once |
| `SingleRun`, `FileDecoder`, `Promises` | one of them alone, the method itself, and exactly when three statements of its documentation hold |
| `Attestation`, `Utf8`, `FfiCodec` | the signed frame of `auth.rs`; text, and the converters of the Swift bindings |

## What is assumed

* AES-256-GCM is a value of type `Scheme` with the laws `Scheme.Lawful`: it seals up to a length limit, a ciphertext is
  16 bytes longer than its message, and a ciphertext opens exactly when it is the sealing of what it opens to. The laws
  are consistent (`Gcm.ReferenceIsLawful`). Unforgeability is not a law of the functions: it is the ideal cipher
  `Scheme.Guarded(log)`, which opens only what the log holds; the class `Cipher` keeps that log, and the decoding
  methods consult it.
* Random draws are parameters that may be missing. Freshness is a hypothesis where it is needed: for integrity only that
  no pair of data key and nonce prefix repeats under one blob id (`FreshSessions`); separation of the wrapping, metadata
  and data keys is not needed, since the three kinds of associated data never meet.
* Reads may be short or fail, writes may reach the file in part and fail, every other operation may fail; all of this is
  decided by arbitrary schedules. Rename is atomic. A crash keeps of each file at least the part that was synced, and
  may forget the latest directory changes.
* Identifiers and strings are their UTF-8 bytes.

## Where documentation and code differ

* blob.rs:42-43 and 382-383 speak of one ciphertext chunk in memory. The loop keeps the pending chunk while it reads the
  next one. Counted as resident buffers (the read buffer and the pending copy), a call stays within one chunk iff its
  body is shorter than a full ciphertext chunk or it is refused before its loop (`Promises.OneChunkResidentIff`).
  Counted as bytes of the body, each once, the exact maximum is the body's length, up to two chunks
  (`Promises.MemoryBound`, reached by `Promises.PeakIsReached`), and one chunk suffices iff the body is at most that
  (`Promises.OneChunkIff`). Of the blobs that the encoders make it suffices for those of less than one plaintext chunk
  (`Promises.OneChunkIffSmallBlob`).
* The two decoders are described as one format, but a body that is a positive number of full ciphertext chunks is
  treated differently: `CodecLaws.DecodersRelated` gives the exact relation, `CodecLaws.DecodersDisagree` an input. No
  encoder writes such a body (`CodecLaws.LengthsCorrespond`).
* blob.rs:387-389 says that a file exists at `output` iff it is complete plaintext. A file that was there before stays
  when the call fails, and it may fail without any I/O failure (`Promises.OldOutputStays`). The statement holds of all
  finished calls iff there was no file at `output` or that file is already the plaintext of the input
  (`Promises.ExistsIffCompleteIff`), and of those without I/O failures iff one of these holds or the call is
  expected to succeed (`Promises.ExistsIffCompleteWithoutFaults`). That no file is at `output` is the guard a caller can check; under
  it, and only then, a file is there iff this very call has published (`Promises.ExistsIffPublishedIff`). What holds
  always is "as before, or complete plaintext".

## Model

| member | source | states |
|---|---|---|
| Context.BuildSegmentAad | crates/filum-crypto/src/aad.rs:21-32 | the result is the domain's characters, the id's length in four bytes and the id, or `InvalidContext` for an empty id or one of 2^32 bytes or more |
| Context.BuildFieldAad | crates/filum-crypto/src/aad.rs:46-61 | the result is the domain's characters, then record id and field name in this order, each behind its length in four bytes; or `InvalidContext` |
| Context.BuildWrapAad | crates/filum-crypto/src/aad.rs:66-78 | the result is a segment AAD, then version, nonce prefix and chunk size at their offsets; or `InvalidContext` |
| Context.SegmentAadBytes | crates/filum-crypto/src/aad.rs:11-32 | what stands at each offset of a segment AAD, and exactly when there is one |
| Context.WrapAadBytes | crates/filum-crypto/src/aad.rs:63-78 | the same for a wrap AAD |
| Context.FieldAadBytes | crates/filum-crypto/src/aad.rs:34-61 | the same for a field AAD |
| Context.SegmentAadMarksItsEnd | crates/filum-crypto/src/aad.rs:5-7 | whatever follows it, a segment AAD determines its id |
| Context.SegmentAadsArePrefixFree | crates/filum-crypto/src/aad.rs:14-32 | a segment AAD is a prefix of another iff the ids are equal |
| Context.FieldAadsArePrefixFree | crates/filum-crypto/src/aad.rs:37-61 | a field AAD is a prefix of another iff record and field are equal |
| Context.WrapAadInjective | crates/filum-crypto/src/aad.rs:63-78 | wrap AADs are equal iff id, version, nonce prefix and chunk size are |
| Context.KindsAreDisjoint | crates/filum-crypto/src/aad.rs:11-35 | segment, wrap and field AADs never coincide |
| Stream.SegmentNonceInjective | crates/filum-crypto/src/blob.rs:38-41 | nonces are equal iff prefix, counter and last flag are |
| Stream.SegmentNonceBytes | crates/filum-crypto/src/blob.rs:38-41 | prefix, counter in four big-endian bytes, and a flag byte that is 1 for a last segment and 0 otherwise |
| Stream.Encryptor.EncryptNext | crates/filum-crypto/src/blob.rs:172-176 | seals at the position, which then advances; at the last counter value it fails and nothing is sealed |
| Stream.Encryptor.EncryptLast | crates/filum-crypto/src/blob.rs:180-184 | seals with the last flag and consumes the encryptor |
| Stream.Decryptor.DecryptNext | crates/filum-crypto/src/blob.rs:237-241 | opens at the position, which advances only on success |
| Stream.Decryptor.DecryptLast | crates/filum-crypto/src/blob.rs:248-252 | opens with the last flag and consumes the decryptor |
| Segments.SealBodyAt | crates/filum-crypto/src/blob.rs:160-185 | every segment is the sealing of its chunk, cut out by index, under the nonce of its index; only the terminal one has the last flag |
| Segments.SealBodyCapacity | crates/filum-crypto/src/blob.rs:38-41 | a body can be sealed to its end iff its full chunks leave the last counter value for the last segment |
| Segments.SealBodyNonces | crates/filum-crypto/src/blob.rs:157-185 | no nonce repeats within one body, complete or not |
| Segments.OpenSealed | crates/filum-crypto/src/blob.rs:224-257 | both decoders undo the sealing of a body |
| Segments.SealOpened | crates/filum-crypto/src/blob.rs:443-469 | what the lookahead decoder accepts seals again to the same bytes |
| Segments.OnlyTheOriginalOpens | crates/filum-crypto/src/blob.rs:227-257 | if only one body was sealed under a session, any byte string accepted from any position on is the original from there, and the original was sealed to its end |
| Blob.WrapDataKey | crates/filum-crypto/src/blob.rs:51-80 | IV and sealed data key, 60 bytes, or the error; one sealing is recorded |
| Blob.UnwrapDataKey | crates/filum-crypto/src/blob.rs:85-115 | the 32-byte data key, or `Aead` for a wrong length or a failed opening |
| Blob.WriteHeader | crates/filum-crypto/src/blob.rs:117-126 | appends the byte 2, the wrapped key, the prefix and the chunk size in four bytes |
| Blob.EncryptChunked | crates/filum-crypto/src/blob.rs:129-187 | the loop over full chunks returns the encoding of the plaintext and records its sealings |
| Blob.DecryptChunked | crates/filum-crypto/src/blob.rs:190-258 | the loop over chunks returns the decoding, with the header checks in order |
| CodecLaws.FrameLayout | crates/filum-crypto/src/blob.rs:11-14 | what stands at each offset of a blob, and that it holds one segment more than full chunks |
| CodecLaws.SegmentsOfFrame | crates/filum-crypto/src/blob.rs:157-185 | each segment of a blob is the sealing of its chunk under data key, segment AAD and the nonce of its index |
| WireFormat.WrapFormat | crates/filum-crypto/src/blob.rs:129-158 | the header's 72 bytes, the length of the whole, and the key wrap: key, IV, data key and the bytes of its AAD |
| WireFormat.SegmentFormat | crates/filum-crypto/src/blob.rs:157-185 | segment i: data key, the twelve bytes of its nonce with the last flag, the bytes of its AAD, and which part of the plaintext it seals |
| WireFormat.UnusableId | crates/filum-crypto/src/blob.rs:190-197 | both decoders report `InvalidContext` iff the id is empty or too long, whatever the bytes; every other failure is `Aead`, or `Io` for a short header of a file |
| CodecLaws.HeaderUnlocks | crates/filum-crypto/src/blob.rs:198-221 | a header gives back data key, nonce prefix and segment AAD |
| CodecLaws.RoundTrip | crates/filum-crypto/src/blob.rs:129-258 | either decoder recovers the plaintext of either encoder's output, with the cipher itself or the ideal one |
| CodecLaws.EncodeSucceedsIff | crates/filum-crypto/src/blob.rs:134-185 | encryption succeeds iff the id is bindable, the draws succeed and the plaintext is shorter than 2^52; which error otherwise |
| CodecLaws.EncodedLength | crates/filum-crypto/src/blob.rs:154-185 | length of a blob as a function of the plaintext length |
| CodecLaws.LengthsCorrespond | crates/filum-crypto/src/blob.rs:160-168 | that function is strictly increasing, invertible, and avoids the lengths on which the decoders disagree |
| CodecLaws.DecodersRelated | crates/filum-crypto/src/blob.rs:227-257 | off the multiples of a full ciphertext chunk the decoders agree; on them the file decoder fails and memory accepts iff the final full chunk opens as last and the others as next; all failures are `Aead` |
| CodecLaws.DecodersDisagree | crates/filum-crypto/src/blob.rs:443-469 | an input that memory accepts and the file decoder refuses |
| CodecLaws.ShortHeader | crates/filum-crypto/src/blob.rs:403-405 | a short header is `Io` from a file, exactly then, and `Aead` in memory |
| CodecLaws.FileDecoderInvertsEncoder | crates/filum-crypto/src/blob.rs:391-480 | the file decoder accepts a string with a plaintext iff the string is an encoding of that plaintext |
| CodecLaws.SliceDecoderAccepts | crates/filum-crypto/src/blob.rs:190-258 | memory accepts the encodings and the strings whose full final chunk is a last segment, nothing else |
| History.BlobIntegrity | crates/filum-crypto/src/blob.rs:16-21 | after any history with fresh sessions either decoder accepts a string iff it is, byte for byte, a blob completed under that key and id, with its plaintext |
| History.BodyIsRigid | crates/filum-crypto/src/blob.rs:229-256 | behind the header of a blob only its own body is accepted |
| History.FieldIntegrity | crates/filum-crypto/src/metadata.rs:7-12 | a field opens under key, record and name iff it was produced under these |
| History.HistoryNonces | crates/filum-crypto/src/blob.rs:136-158 | no key and nonce are used twice across wraps, segments and fields, aborted encryptions included, if no IV repeats under a long-lived key, no pair of data key and prefix repeats, and none is a long-lived key with the beginning of one of its IVs; draws that fail are no obstacle |
| Metadata.EncryptField | crates/filum-crypto/src/metadata.rs:31-54 | validation, IV, sealing; the sealing is recorded |
| Metadata.DecryptField | crates/filum-crypto/src/metadata.rs:56-73 | validation, opening |
| Metadata.EncodeFieldSucceedsIff | crates/filum-crypto/src/metadata.rs:37-53 | when field encryption succeeds |
| WireFormat.FieldFormat | crates/filum-crypto/src/metadata.rs:31-54 | a field is the sealing under key, IV and the bytes of the field AAD, together with that IV; which error otherwise |
| WireFormat.FieldOpening | crates/filum-crypto/src/metadata.rs:56-73 | opening uses the same AAD; which error otherwise |
| Files.ReadFull | crates/filum-crypto/src/blob.rs:262-274 | under any schedule of short reads it delivers the next min(buffer, rest) bytes, so a short count means the end; it fails iff a read failed |
| Files.SiblingTempInjective | crates/filum-crypto/src/blob.rs:369-380 | temp paths coincide iff output and suffix do |
| Files.TempIsSibling | crates/filum-crypto/src/blob.rs:365-380 | the temp path has the output's directory, and its name is the output's name, a dot, the sixteen lower-case hexadecimal digits of the suffix and `.part`; when each error is given |
| FileEncoder.EncryptFile | crates/filum-crypto/src/blob.rs:278-347 | under any schedule a success leaves at the output exactly what the in-memory encoder returns for the input; nothing else changes; the sealings are a beginning of that encoder's, and a failed call that reached the output leaves there a beginning of header and sealed segments; a failed start or a missing input is reported before anything is created; every error is `Io` or that encoder's |
| Publish.LoopStepOk | crates/filum-crypto/src/blob.rs:445-469 | one step of the lookahead loop keeps the conservation of input and output, and ends in the decoding of the input |
| Publish.ExecSound | crates/filum-crypto/src/blob.rs:433-479 | every action, failure or partial write of a run keeps its invariant and touches only its own unpublished file, its temp path and, on publishing, its output |
| Outcomes.ExpectedCases | crates/filum-crypto/src/blob.rs:391-433 | the result expected without I/O failures, case by case in the order of the checks |
| Concurrency.LayoutFromNames | crates/filum-crypto/src/blob.rs:365-368 | runs are apart if no path looks like a temp file and no two runs share output and suffix |
| Concurrency.PublishIsAtomic | crates/filum-crypto/src/blob.rs:382-390 | for any number of runs in any interleaving, every path but temp paths is as at first or holds one run's complete, durable plaintext, decoded from the file that was at that run's input at first or that another run has published there |
| Concurrency.CrashIsSafe | crates/filum-crypto/src/blob.rs:470-477 | a crash at any moment, even one that forgets directory changes, leaves each such path as a crash of the first state would, or with a complete plaintext decoded from that run's input |
| Concurrency.PublishedIsAuthentic | crates/filum-crypto/src/blob.rs:385-388 | what is published is the plaintext of a blob the history completed under the run's key and id, and that blob was the run's input |
| Concurrency.ActsAsAtOpening | crates/filum-crypto/src/blob.rs:391-480 | while others run, the result of a call is the one expected of the file system as it was when the call opened its input, or `Io` after a failure |
| Concurrency.TempLeftIff | crates/filum-crypto/src/blob.rs:349-363 | while others run, a call that is over leaves a temp file iff it failed to remove it |
| Concurrency.LoopConserves | crates/filum-crypto/src/blob.rs:443-469 | at any time in any run: consumed, pending, buffered and unread bytes are the input, the output so far is the opening of the consumed chunks and a beginning of the result, and two ciphertext chunks and one plaintext chunk are live |
| Promises.MemoryBound | crates/filum-crypto/src/blob.rs:443-468 | counting each byte of the body once, a number bounds the ciphertext held at all times iff it is at least the body's length up to two chunks |
| Promises.PeakIsReached | crates/filum-crypto/src/blob.rs:446-468 | a run that holds that much |
| Promises.OneChunkIff | crates/filum-crypto/src/blob.rs:42-43 | in that count, the documented bound holds iff the body is at most one ciphertext chunk or the call is refused before the loop |
| Promises.ResidentBound | crates/filum-crypto/src/blob.rs:443-468 | a number bounds the resident buffers iff it is at least one chunk, or two if the body has a full chunk, or the call is refused before the loop |
| Promises.ResidentPeakIsReached | crates/filum-crypto/src/blob.rs:443-468 | a run in which both buffers are resident, if the body has a full chunk |
| Promises.OneChunkResidentIff | crates/filum-crypto/src/blob.rs:42-43 | of the resident buffers, the documented bound holds iff the body is shorter than one ciphertext chunk or the call is refused before the loop |
| Promises.OneChunkIffSmallBlob | crates/filum-crypto/src/blob.rs:42-43 | for an encoded blob: iff its plaintext is shorter than one chunk |
| Promises.ExistsIffCompleteIff | crates/filum-crypto/src/blob.rs:387-389 | after every finished call a file is at the output iff it is the complete plaintext of the input: this holds iff there was no file before, or it already was that plaintext |
| Promises.ExistsIffCompleteWithoutFaults | crates/filum-crypto/src/blob.rs:387-389 | the same over calls without I/O failures holds iff one of these is so or the checks and the decoding of the input succeed |
| Promises.ExistsIffPublishedIff | crates/filum-crypto/src/blob.rs:470-478 | after every finished call a file is at the output iff this call has published: this holds iff there was no file before |
| Promises.ExistsIffPublishedWithoutFaults | crates/filum-crypto/src/blob.rs:470-478 | the same over calls without I/O failures holds iff there was none before or the checks and the decoding succeed |
| Promises.OldOutputStays | crates/filum-crypto/src/blob.rs:387-389 | a failing call without I/O failures that leaves the old file |
| Promises.NewOutput | crates/filum-crypto/src/blob.rs:470-478 | where there was no file, at any time there is one iff the call has published it |
| Promises.CreatesNothingIff | crates/filum-crypto/src/blob.rs:433-434 | a call never changes the file system, at any time and with any failures, iff its id, input, header or temp path is not in order |
| SingleRun.CanFinish | crates/filum-crypto/src/blob.rs:445-469 | any call, wherever it stands, comes to an end without further failures |
| Concurrency.CanFinishAmongOthers | crates/filum-crypto/src/blob.rs:445-469 | from any state of any number of runs, successful actions of one run alone bring it to its end and leave the others where they stand |
| Concurrency.AllCanFinish | crates/filum-crypto/src/blob.rs:445-469 | from any state all runs can be brought to their ends without further failures |
| SingleRun.FinishedRun | crates/filum-crypto/src/blob.rs:385-390 | a call that is over has published the decoding of its input, or changed nothing but its temp path; it leaves a temp file iff the removal of that file failed, whatever failed before; without I/O failures it reports the error the order of checks prescribes |
| FileDecoder.TempCleanup.Drop | crates/filum-crypto/src/blob.rs:357-363 | removes the temp file iff still armed and the removal works |
| FileDecoder.StreamToTemp | crates/filum-crypto/src/blob.rs:443-469 | the loop takes the actions of the process up to the terminal segment or the failure |
| FileDecoder.PublishTemp | crates/filum-crypto/src/blob.rs:470-477 | flush, fsync, close and rename are the process's last actions |
| FileDecoder.DecryptFile | crates/filum-crypto/src/blob.rs:391-480 | the call is a run of the process; success means the durable decoding of the input at the output and nothing else changed; failure leaves all but the temp path alone, and that too unless the removal, its last operation, fails; without I/O failures the result is the decoding; every error is `Io` or the one the order of checks prescribes |
| Kdf.DeriveSubkey | crates/filum-crypto/src/kdf.rs:29-33 | fills the buffer with the first octets for secret and info, or refuses more than 8160 |
| Kdf.ContextStrings | crates/filum-crypto/src/kdf.rs:16-22 | the three context strings, character by character |
| Vault.Vault.Open | crates/filum-crypto/src/vault.rs:36-55 | wrapping key, metadata key and signing seed are the first 32 octets derived from the secret with the wrap, metadata and sign context |
| Vault.Vault.EncryptBlob | crates/filum-crypto/src/vault.rs:63-65 | the encoding under the wrapping key; the history gains the event |
| Vault.Vault.DecryptBlob | crates/filum-crypto/src/vault.rs:67-69 | after any history the result is a plaintext iff the history completed just this blob for this key and id from it; the error is `InvalidContext` for an unusable id and `Aead` otherwise |
| Vault.Vault.EncryptFileToBlob | crates/filum-crypto/src/vault.rs:71-73 | the history gains exactly this encryption with as many sealings as were made, also by a failed call; a success leaves a blob of the history at the output; without I/O failures it succeeds iff the encoding does |
| Vault.Vault.DecryptBlobToFile | crates/filum-crypto/src/vault.rs:75-77 | a success publishes the plaintext of a blob of the history; a blob of the history is published if no I/O operation fails and there is a temp path |
| Vault.Vault.EncryptMetadataField | crates/filum-crypto/src/vault.rs:79-86 | the field under the metadata key; the history gains the event |
| Vault.Vault.DecryptMetadataField | crates/filum-crypto/src/vault.rs:88-95 | after any history a field opens iff this key produced it in this context; the error is `InvalidContext` for an unusable identifier and `Aead` otherwise |
| Vault.OtherVaultReads | crates/filum-crypto/src/vault.rs:34-69 | what one vault encrypts another opened from the same secret decrypts, whatever happened before |
| Vault.OtherVaultReadsFile | crates/filum-crypto/src/vault.rs:71-77 | the same for files: without I/O failures the output is the input again |
| Vault.OtherVaultReadsField | crates/filum-crypto/src/vault.rs:79-95 | the same for metadata fields |
| Attestation.DomainSeparated | crates/filum-crypto/src/auth.rs:55-62 | the frame is the byte 22, the characters of the domain, the message |
| Attestation.FrameInjective | crates/filum-crypto/src/auth.rs:47-54 | for domains of at most 255 bytes frames are equal iff domain and message are |
| Attestation.CapIsExact | crates/filum-crypto/src/auth.rs:53-56 | the reason for the documented cap: were the domain an argument, frames would stay apart for domains up to a length iff that length is at most 255 |
| FfiCodec.ParsePrintedInt32 | Sources/FilumCrypto/FilumCrypto.swift:82-96 | a written integer is read back from any place in a buffer |
| FfiCodec.Int32Bytes | Sources/FilumCrypto/FilumCrypto.swift:144-147 | the four bytes of a written integer: two's complement, most significant first |
| FfiCodec.ByteReader.ReadInt32 | Sources/FilumCrypto/FilumCrypto.swift:82-96 | big-endian two's complement; the offset moves only on success |
| FfiCodec.ByteReader.ReadBytes | Sources/FilumCrypto/FilumCrypto.swift:100-111 | the next bytes, overflow, or a trap for a negative count |
| FfiCodec.ByteWriter.WriteInt32 | Sources/FilumCrypto/FilumCrypto.swift:144-147 | appends the printed integer |
| FfiCodec.ParsePrintedBytes | Sources/FilumCrypto/FilumCrypto.swift:482-491 | printed data is read back between any prefix and rest, and reading stops behind it |
| FfiCodec.PrintParsedBytes | Sources/FilumCrypto/FilumCrypto.swift:482-491 | whatever is read is what printing the value writes |
| FfiCodec.PrintedBytes | Sources/FilumCrypto/FilumCrypto.swift:487-491 | printed data is its length in four bytes, then the data; a length beyond `Int32` traps |
| FfiCodec.ParseBytesCases | Sources/FilumCrypto/FilumCrypto.swift:100-111 | when reading data throws, when it traps, and what it yields where |
| Utf8.ValidIffText | Sources/FilumCrypto/FilumCrypto.swift:464-467 | the byte-wise check accepts exactly the UTF-8 encodings of sequences of scalar values |
| Utf8.EncodeAllInjective | Sources/FilumCrypto/FilumCrypto.swift:464-473 | different sequences of scalar values have different encodings |
| Utf8.Examples | Sources/FilumCrypto/FilumCrypto.swift:464-473 | the encodings that section 7 of RFC 3629 gives |
| FfiCodec.ParsePrintedString | Sources/FilumCrypto/FilumCrypto.swift:464-473 | a printed string is read back iff it encodes scalar values; anything else traps |
| FfiCodec.ParsePrintedScalars | Sources/FilumCrypto/FilumCrypto.swift:442-473 | any sequence of scalar values is written and read back, and lowered and lifted |
| FfiCodec.ParseStringCases | Sources/FilumCrypto/FilumCrypto.swift:464-467 | reading a string is reading data that must be text, or it traps |
| FfiCodec.ByteReader.ReadString | Sources/FilumCrypto/FilumCrypto.swift:464-467 | yields the data read if it is an encoding of scalar values, and traps otherwise |
| FfiCodec.ByteReader.ReadSequence | Sources/FilumCrypto/FilumCrypto.swift:951-959 | reading element by element finds the same as reading in bulk |
| FfiCodec.ByteWriter.WriteSequence | Sources/FilumCrypto/FilumCrypto.swift:943-949 | writing element by element appends the same bytes as the bulk writer |
| FfiCodec.ByteWriter.WriteData | Sources/FilumCrypto/FilumCrypto.swift:487-491 | appends length and bytes, or traps when the length exceeds `Int32` |
| FfiCodec.ByteWriter.WriteString | Sources/FilumCrypto/FilumCrypto.swift:469-473 | appends the length of the UTF-8 bytes and these bytes, or traps when the length exceeds `Int32` |
| FfiCodec.ParsePrintedField | Sources/FilumCrypto/FilumCrypto.swift:785-798 | a printed record is read back between any prefix and rest |
| FfiCodec.PrintedField | Sources/FilumCrypto/FilumCrypto.swift:785-798 | ciphertext first, then IV, each behind its length in four bytes |
| FfiCodec.ParseFieldCases | Sources/FilumCrypto/FilumCrypto.swift:786-792 | reading a record stops at the first part that throws or traps |
| FfiCodec.ByteReader.ReadField | Sources/FilumCrypto/FilumCrypto.swift:786-792 | the record is read as its two parts in order |
| FfiCodec.LiftBytesInvertsLower | Sources/FilumCrypto/FilumCrypto.swift:196-213 | `lift` gives a value exactly on what printing makes of it, and `lower` hands over just those of these buffers whose length fits `Int32` |
| FfiCodec.LiftFieldInvertsLower | Sources/FilumCrypto/FilumCrypto.swift:196-213 | the same for `EncryptedField` |
| FfiCodec.LiftSignatureInvertsLower | Sources/FilumCrypto/FilumCrypto.swift:733-744 | the same for `DeviceSignature` |
| FfiCodec.LiftStringInvertsLower | Sources/FilumCrypto/FilumCrypto.swift:442-461 | a buffer lifts to a string iff it is that string lowered, or has no data and the string is empty; these are the strings that are read behind a length |
| FfiCodec.LiftRejectsTrailing | Sources/FilumCrypto/FilumCrypto.swift:196-201 | any trailing byte makes `lift` throw |
| FfiCodec.LiftCases | Sources/FilumCrypto/FilumCrypto.swift:196-204 | a buffer without data traps, what reading throws or traps on is passed on, a value that ends early is incomplete data |
| FfiCodec.LiftFieldFrom | Sources/FilumCrypto/FilumCrypto.swift:196-204 | the reading method computes `lift` |
| FfiCodec.LowerFieldTo | Sources/FilumCrypto/FilumCrypto.swift:209-213 | the writing method computes `lower`, with its traps |

## Left out

- AES, GHASH, SHA-256, HKDF and Ed25519 themselves, and signing and verification: external crates, seen only through the laws above.
- Quality of randomness, zeroization and constant time: not observable in a functional model.
- `recovery.rs` and `Vault::from_recovery_phrase`: word packing and checksum live in another crate.
- The uniffi crate, handle maps, error converter and foreign-call plumbing of the bindings: delegation without logic to prove.
- Permissions, symbolic links and directory fsync: the file system has paths, files, and what survives a crash.
- FileEncoder.EncryptFile: an output that names the same file as the input is excluded; the source truncates it before reading.
- FileDecoder.DecryptFile: the drawn temp path is taken to be unused and to be neither the input nor the output.
- Concurrency.PublishIsAtomic: other programs that write to the input or output files while runs are going on are not modelled.
- Publish.ExecSound: a run reads its input at the offsets of its own progress; the read-ahead of `BufReader` is not modelled, since input files do not change.
