# Verification of the PLATO software codec and of the GRSPW2 descriptor rings

This project models two parts of the flight software library in Dafny 4.11 and proves what
they promise.

**The codec** (`lib/icu_compress`, `lib/decompress`, `lib/common`) compresses science
collections and undoes it. A sample minus its prediction is folded to an unsigned number,
coded with a Golomb, Rice or unary code under a zero or a multi escape mechanism, and packed
into 32-bit words; collections are framed into a chunk, stored raw when they do not shrink,
and described by an entity header. The decoder works through a 64-bit look-ahead register.
The main results:

- whatever `compress_chunk` builds, `decompress_cmp_entiy` turns back into exactly the chunk,
  in every mode, for every parameter set, with any mixture of coded, raw and empty
  collections, and both sides compute the same updated model. The entity, header included, is
  the bytes in the destination and nothing else (`EntityMemory.MemoryRoundTrip`,
  `ChunkTheorems.EntityRoundTrip`, over the contracts of `EntityMemory.CompressChunkInMemory`
  and `EntityMemory.DecompressMemory`);
- with the model updated in place, both sides stay in lockstep over any number of frames
  (`MultiFrame.Lockstep`), also under lossy rounding (`Rdcu.LossyLockstep`);
- the RDCU path returns every sample rounded, although the encoder predicts from unrounded
  neighbours (`Rdcu.LossyRoundTrip`, `Rdcu.RdcuRoundTrip`);
- decoding is canonical: without rounding, and with thresholds no larger than the fields, whatever
  stream the decoder accepts, whoever wrote it, is the encoder's stream of the samples it returns
  (`Canonical.StreamIsCanonical`, `Canonical.PayloadIsCanonical`, over `Canonical.EscapeIsCanonical`);
- what is predicted from what: differencing is model compression with every sample's neighbour for
  its model, on both sides (`Predictions.DifferencesAreModelled`,
  `Predictions.DifferencesDecodeModelled`), and the bits of two of the unit tests' streams follow
  (`KnownAnswers`);
- a stream cut anywhere is rejected (`Streams.CutStream`, `Rdcu.MissingBytesAreNoticed`);
- the recommended capacity is always enough (`ChunkTheorems.BoundIsEnough`) and tight
  (`Capacity.BoundIsTight`), a small buffer is reported exactly when some collection does not fit
  (`ChunkCompressor.CompressChunk`), and the queried size, in whole words, is always enough
  (`Capacity.QueryGivesCapacity`);
- the accepted chunks are exactly the sequences of sound collections (`Acceptance.AcceptedIff`);
- no stream length of a chunk wraps (`ChunkTheorems.NoStreamWraps`), and the size query agrees with
  the real run except where "Where the code does not keep a promise" says so (`SizeQuery.SizeQueryAgrees`);
- the thresholds are tight and optimal, also those `compress_chunk` derives
  (`Spill.MaxSpillIsTight`, `SpillChoice.StreamIsShortest`, `ChunkThresholds.ChunkStreamIsShortest`).

**The descriptor rings** (`examples/leon/grspw2.c`, `examples/leon/list.h`): a driver moves
descriptors between two intrusive lists while a DMA core walks the table on its own. The
driver's accesses (copying a packet out or in, enabling a descriptor, moving it) are single
steps, and the core may act between any two of them, also between enabling a descriptor and
moving it. In every interleaving every descriptor is in the lists exactly once, the enabled
ones are where the core works, and packets come out in order and unchanged, with at most a
table of them waiting or in flight (`DescriptorRing.PacketsInOrder`,
`DescriptorRing.SentInOrder`). No packet is stuck: from every state all of them can be delivered or
sent (`DescriptorRing.EverythingDelivered`, `DescriptorRing.EverythingSent`). The driver never sets
a wrap flag (defined at grspw2.h:297 and 320), so the core goes round only at the end of its own
table of 128 receive or 64 transmit descriptors; the theorems describe tables of just that size, and
`DescriptorRing.TableMustBeFull` shows that a smaller table is left at its end.

## How it is built

`Bits` are sequences of booleans, most significant bit first. Buffers the source writes in
place (destination, updated model, decoded data) are `array<bool>`; `BitReader.BitDecoder`,
`IntrusiveList.Node` and `DescriptorDriver.Driver` are classes whose fields the methods
update. Every imperative method is proved against a function of its inputs or of the old
state, and the theorems are about those functions. Byte positions are multiples of 8 bits;
the byte order is the native one of the big-endian flight processor, so the source's byte
swaps are the identity.

| files | content |
|---|---|
| `Bits`, `Golomb`, `Spill`, `SpillChoice`, `ChunkThresholds` | bit strings and 32-bit arithmetic, the codes, the thresholds |
| `Values`, `Streams`, `Memory` | one value, one sample, one collection; samples in memory |
| `Predictions`, `Canonical`, `KnownAnswers` | what streams say, and that they say it in one way; the words of the unit tests |
| `BitWriter`, `Encoder`, `Compressor`, `ChunkCompressor` | the encoder, bottom up |
| `BitReader`, `Decoder`, `Decompressor`, `DecodeQuery` | the decoder, bottom up, and its size query |
| `BitRuns` | whole runs of the bit writer and the bit reader |
| `DataTypes`, `Config`, `Parameters` | field layouts, validity checks, parameter slots, the header |
| `Chunks`, `Entities`, `ChunkTheorems`, `SizeQuery`, `Capacity`, `Acceptance` | the format and its theorems |
| `EntityMemory`, `EntitySize`, `Formats` | entities as bytes, what they have to hold and where things stand in them |
| `MultiFrame`, `Rdcu` | many frames, the RDCU path |
| `IntrusiveList`, `DescriptorRing`, `DescriptorDriver`, `TransmitControl` | the rings |
| `Results` | options and error codes |

The per-type `compress_*` and `decompress_*` loops of the source are one loop over a record of
fields (`Encoder.CompressLoop`, `Decoder.DecompressLoop`); `DataTypes.Layout` instantiates it.

## Where the code does not keep a promise

- The RDCU round trip fails for zero samples outside raw mode: the stream is empty, but the
  decoder's exit test compares with `samples - 1`, which wraps, so it tries to decode and reports
  an error. `compress_like_rdcu` followed by `decompress_rdcu_data` succeeds if and only if the
  mode is raw or there is a sample (`Rdcu.RoundTripNeedsASample`). Chunks are not affected: an
  empty collection is stored raw.
- The decoder does not compare a value coded without escape symbol with the width of its field. With
  a threshold beyond the field, as large parameters have it (`Canonical.DerivedBeyondField`), it
  accepts streams no encoder puts; decoding is canonical if and only if the threshold does not
  exceed the field (`Canonical.CanonicalIff`).
- The size query succeeds for parameters and sizes the entity header cannot hold. The real run
  then fails, after the updated model was already written. The header can be built if and only if
  the queried size fits 24 bits, the chunk type's parameters 16, the model value 8 and the times
  48 (`SizeQuery.HeaderIsBuiltWhen`). `SizeQuery.SizeQueryIsTooOptimistic` is a chunk with a
  parameter that does not fit, `SizeQuery.SizeFieldOverflows` one, of the largest size, whose
  compressed size does not.
- The size query already writes the updated model. When that is the model buffer itself, as the
  documentation allows, the real run compresses against another model, and its size may differ:
  `SizeQuery.InPlaceQueryMisleads` is a chunk for which it does. The queried size can be relied
  on if and only if the query does not update the model in place in a model mode
  (`SizeQuery.QueryIsReliableIff`).
- The decoder's size query, a call without output buffer, looks at no stream. It never refuses an
  entity that decodes, but it accepts entities that do not (`DecodeQuery.QueryAcceptsCorrupt`). Its
  answer can be relied on, whatever the payloads hold, if and only if every frame was stored raw,
  as the length fields tell (`DecodeQuery.AnswerIsReliableIff`).
- `decompress_cmp_entiy` returns the original size from the header without comparing it with what it
  decoded. It is the size of the decoded data, as documented, if and only if the collections announce
  it together, unless the entity is raw or empty (`EntitySize.ReturnedSizeIff`,
  `EntitySize.ReturnedTooMuch`). For what `compress_chunk` builds it always is.
- The lists of data types and of chunk types do not agree: subservices 17 to 20 (fast cadence)
  have a data type and no chunk type. `Parameters.ChunkTypesAreSupported` states exactly for
  which subservices there is none.
- `grspw2_rx_desc_clear_all`, used when routing is enabled, also moves descriptors to the free
  list that are still enabled. It keeps the ring invariant if and only if no used descriptor
  is enabled (`DescriptorRing.ClearAllKeepsIff`); a fresh table with one descriptor added is
  one for which it does not (`DescriptorRing.ClearAllBreaks`).
- `grspw2_tx_desc_add_pkt` sets the CRC and non-CRC-byte fields of a reused descriptor but never
  clears them, and it cuts the sizes to their 8 and 24 bits. The control word is the requested one
  if and only if the sizes fit and nothing stale remains (`TransmitControl.ControlIsAsRequestedIff`,
  `TransmitControl.StaleControl`), and the packet is sent whole if and only if the sizes fit
  (`DescriptorDriver.SentWholeIff`).
- `grspw2_get_pkt` subtracts the bytes to strip from the size of a packet without a check. What it
  copies is the rest of the packet if and only if the packet has that many bytes
  (`DescriptorDriver.StripFitsIff`); for two bytes with four to strip it copies 4294967294
  (`DescriptorDriver.ShortPacketWraps`).

## Model

| member | source | states |
|---|---|---|
| Golomb.PowOf2Test | lib/common/cmp_support.c:59-62 | the bit trick recognises exactly the powers of two among the non-zero 32-bit numbers |
| Golomb.QuotientIsDivision | lib/icu_compress/cmp_icu.c:252-253 | the quotient and rest the reference code is defined by are those of the source's division |
| Golomb.GolombEncoderLength | lib/icu_compress/cmp_icu.c:244-264 | the announced length is that of the reference code (unary quotient, truncated binary remainder), for every value |
| Golomb.GolombEncoderBits | lib/icu_compress/cmp_icu.c:244-264 | whenever the code word fits 32 bits the word composed from cutoff-shifted groups is the reference code |
| Golomb.RiceEncoderBits | lib/icu_compress/cmp_icu.c:210-228 | the same for the fast form with powers of two |
| Golomb.GenerateCwBits | lib/icu_compress/cmp_icu.c:460-487 | whichever encoder is selected announces the length of, and up to 32 bits emits, the reference code |
| Golomb.RiceRefinesGolomb | lib/icu_compress/cmp_icu.c:210-264 | for powers of two both encoders agree in length and bits |
| Golomb.GolombDecodesCode | lib/decompress/decmp.c:139-169 | decoding a code word followed by anything returns the value and consumes exactly the code word |
| Golomb.GolombDecodesOnlyCode | lib/decompress/decmp.c:139-169 | whatever is decoded, the consumed bits are the code of the returned value |
| Golomb.RiceAgrees | lib/decompress/decmp.c:114-125 | rice_decoder is golomb_decoder for powers of two, in result and bits consumed |
| Golomb.UnaryAgrees | lib/decompress/decmp.c:89-98 | unary_decoder is golomb_decoder for parameter 1 |
| Golomb.DecodersAgree | lib/decompress/decmp.c:183-194 | the selected decoder always computes what golomb_decoder does |
| Golomb.DecodeInvertsCode | lib/decompress/decmp.c:89-194 | the selected decoder inverts the code for every parameter, and is self-delimiting |
| Golomb.DecodeIsPrefixCode | lib/decompress/decmp.c:89-194 | more bits behind a code word do not change its decoding, and a code word cut short is not decoded |
| Spill.MaxSpillIsTight | lib/common/cmp_support.c:326-338 | a threshold keeps every normal value and escape symbol within 32 bits if and only if it is at most the computed maximum; one more needs 33 bits |
| Spill.CodableFits | lib/icu_compress/cmp_icu.c:356-400 | no value or escape symbol that can be emitted has a code word over 32 bits |
| Spill.ImaTableIsFormula | lib/common/cmp_support.c:299-313 | the table for the RDCU is the same formula for 16-bit code words |
| Spill.DerivedSpillIsValid | lib/icu_compress/cmp_icu.c:1733-1740 | a derived threshold passes the validity check if and only if the parameter is in range, and fits 24 bits |
| Spill.BestZeroSpillIsOptimal | lib/icu_compress/cmp_icu.c:1702-1719 | no legal threshold spends fewer bits on any value than the derived one |
| SpillChoice.NormalWhenNotLonger | lib/icu_compress/cmp_icu.c:308-337 | a value is coded normally if and only if its code word is not longer than escape symbol and raw bits, unless the maximum forbids it |
| SpillChoice.StreamIsShortest | lib/icu_compress/cmp_icu.c:1702-1719 | for fixed Golomb parameters no legal thresholds give a shorter stream for any data |
| ChunkThresholds.ZeroThresholdsAreBest | lib/icu_compress/cmp_icu.c:1702-1740 | in the zero escape modes every field of every chunk is compressed with the best threshold for its parameter and width |
| ChunkThresholds.MultiThresholdsAreLargest | lib/icu_compress/cmp_icu.c:1733-1740 | in the multi escape modes every field of every chunk is compressed with the largest legal threshold |
| ChunkThresholds.ChunkStreamIsShortest | lib/icu_compress/cmp_icu.c:1733-1740 | no legal thresholds make the stream compress_chunk puts for a collection shorter, whatever the data |
| Values.RoundedAgain | lib/common/cmp_cal_up_model.h:39-52 | rounding clears exactly the low bits, is idempotent and rounds like the original |
| Values.MapToPosIsFold | lib/icu_compress/cmp_icu.c:99-115 | the 32-bit folding is the closed form on the difference modulo 2^n, and stays below 2^n |
| Values.MapRoundTrip | lib/decompress/decmp.c:287-330 | folding the wrapped difference and unfolding it against the same model is the identity, at every width |
| Values.ZeroEscapeRoundTrip | lib/decompress/decmp.c:206-229 | decode_zero inverts encode_value_zero for every width and legal threshold, including the raw field that wraps to 0 |
| Values.MultiEscapeRoundTrip | lib/decompress/decmp.c:241-275 | decode_multi inverts encode_value_multi with none of its corruption checks firing, including outliers equal to the threshold |
| Canonical.EscapeIsCanonical | lib/decompress/decmp.c:206-275 | whatever escape sequence is decoded, in either mechanism, the bits consumed are the encoder's for the returned value; every check of the decoder is needed for that |
| Canonical.CanonicalIff | lib/decompress/decmp.c:206-330 | without rounding, for the field widths there are, every decoded value was encoded as the encoder does it if and only if the threshold does not exceed what the field can hold |
| Canonical.DerivedBeyondField | lib/icu_compress/cmp_icu.c:1702-1740 | a parameter and a field width whose derived threshold does exceed it |
| Values.EscapeSymbolFits | lib/icu_compress/cmp_icu.c:356-400 | the escape symbol announces enough bits, no more than the width allows, and one of the two highest payload bits is set |
| Values.ValueRoundTrip | lib/decompress/decmp.c:311-330 | the decoder returns the rounded value if its model rounds to the encoder's |
| Values.CutValue | lib/decompress/decmp.c:206-330 | an encoded value cut anywhere is rejected |
| Values.ValueBitsBound | lib/icu_compress/cmp_icu.c:308-400 | a value takes between 1 and 64 bits |
| Values.UpModelIsAverage | lib/common/cmp_cal_up_model.h:87-116 | for values that fit their field nothing is truncated: the updated model is the rounded-down weighted average of model and rounded data |
| Values.UpModelOfRounded | lib/common/cmp_cal_up_model.h:87-116 | updating from the rounded value gives the model updated from the exact one |
| Predictions.ValueIsFoldedDifference | lib/icu_compress/cmp_icu.c:279-428 | a value that fits costs the escape bits of its difference to the prediction, taken modulo the field and folded |
| Streams.RecordRoundTrip | lib/decompress/decmp.c:1205-1273 | the fields of a sample decode to the rounded fields, each with its own setup |
| Streams.StreamRoundTrip | lib/decompress/decmp.c:414-487 | the stream of a collection decodes to its rounded samples in the model and the differencing modes, whatever follows it |
| Streams.CutStream | lib/decompress/decmp.c:414-487 | every proper beginning of the stream is rejected |
| Predictions.DifferencesAreModelled | lib/icu_compress/cmp_icu.c:500-548 | a stream of the differencing modes is that of the model mode whose models are zeros and then the sample before |
| Predictions.DifferencesDecodeModelled | lib/decompress/decmp.c:414-487 | a stream decodes to given samples in a differencing mode if and only if it does in the model mode with their neighbours for models |
| Predictions.SampleBitsAgainst | lib/icu_compress/cmp_icu.c:500-548 | sample i costs what its fields cost against sample i of the model, or against sample i - 1, or against zeros for the first one |
| Predictions.UpdatedSampleIsAverage | lib/common/cmp_cal_up_model.h:87-116 | every field of an updated sample is the weighted average of the same field of the model and the rounded data |
| Canonical.RecordIsCanonical | lib/decompress/decmp.c:1205-1273 | without rounding, and with thresholds no larger than the fields, the bits a sample is decoded from are those the encoder puts for it |
| Canonical.StreamIsCanonical | lib/decompress/decmp.c:414-487 | without rounding, and with thresholds no larger than the fields, any stream the decoder accepts begins with the encoder's stream of the samples it returns |
| Streams.StreamBitsBound | lib/icu_compress/cmp_icu.c:500-548 | a stream has at most 64 bits per field |
| Streams.DecodedStreamFits | lib/decompress/decmp.c:414-487 | every decoded field fits the field it is stored in, whatever was decoded |
| Streams.UpRecordsOfRounded | lib/common/cmp_cal_up_model.h:87-116 | the decoder, which has only rounded samples, computes the encoder's updated models |
| Streams.LosslessRecords | lib/common/cmp_cal_up_model.h:39-52 | without rounding nothing is lost |
| Memory.RecordsOfBitsOfAll | lib/common/cmp_data_types.h:119-316 | samples stored as packed structures are read back |
| Memory.BitsOfAllRecordsOf | lib/common/cmp_data_types.h:119-316 | every memory content is the storage of the samples read from it |
| Formats.FieldInMemory | lib/common/cmp_data_types.h:119-316 | field f of sample i is the number that stands behind i samples and the f fields before it |
| BitWriter.PutNBits32 | lib/icu_compress/cmp_icu.c:136-192 | the low bits of the value stand at the position and no other bit changes; without a buffer only the length is computed; too many bits are refused; a small buffer is reported without a change |
| BitWriter.PutThenPut | lib/icu_compress/cmp_icu.c:136-192 | one put after another is the put of the concatenation, also when it fails |
| BitRuns.PutFields | lib/icu_compress/cmp_icu.c:136-192 | any run of puts leaves the concatenation of the fields, changes nothing else, and fails exactly when they do not fit |
| BitRuns.ReadRun | lib/decompress/read_bitstream.h:253-362 | any run of reads and refills, with at most 57 bits asked for between two refills, sees the buffer's bits in order, and each refill reports exactly whether the run is inside, at or behind the end |
| BitRuns.FieldsReadBack | lib/decompress/read_bitstream.h:253-362 | the reader returns the fields the writer put |
| Encoder.EncodeNormal | lib/icu_compress/cmp_icu.c:279-289 | puts the code of any value the escape mechanisms pass to it |
| Encoder.EncodeValueZero | lib/icu_compress/cmp_icu.c:308-337 | puts the zero escape bits of the folded difference, or fails |
| Encoder.EncodeValueMulti | lib/icu_compress/cmp_icu.c:356-400 | puts the multi escape bits of the folded difference, or fails |
| Encoder.EncodeValue | lib/icu_compress/cmp_icu.c:416-428 | refuses exactly the values that do not fit after rounding, leaving the buffer alone, and puts the others |
| Encoder.EncodeRecord | lib/icu_compress/cmp_icu.c:1230-1290 | puts the fields of a sample one after the other |
| Encoder.CompressLoop | lib/icu_compress/cmp_icu.c:500-548 | puts the stream of the collection or reports a small buffer, and writes the updated model behind the read position, also into the model buffer itself |
| KnownAnswers.KnownDifferences | test/cmp_icu/test_cmp_icu.c:1151-1180 | the 66 bits the unit test expects for its samples in the mode DIFF_ZERO |
| KnownAnswers.KnownModelled | test/cmp_icu/test_cmp_icu.c:1259-1298 | the 76 bits the unit test expects for its samples in the mode MODEL_MULTI |
| KnownAnswers.KnownUpdate | test/cmp_icu/test_cmp_icu.c:1259-1298 | the updated model the unit test expects |
| BitReader.BitDecoder.constructor | lib/decompress/read_bitstream.h:131-183 | for any number of bytes the unread bits are the whole buffer |
| BitReader.BitDecoder.PeekBits | lib/decompress/read_bitstream.h:194-204 | looks at the next bits, reading zeros behind the loaded ones |
| BitReader.BitDecoder.PeekLeadingOnes | lib/decompress/read_bitstream.h:215-225 | counts the leading ones of the loaded bits |
| BitReader.BitDecoder.ReadBits | lib/decompress/read_bitstream.h:253-259 | returns and consumes the next bits of the stream, or passes its end |
| BitReader.BitDecoder.ReadBits32Sub1 | lib/decompress/read_bitstream.h:299-311 | returns the next field less one within its width |
| BitReader.BitDecoder.Refill | lib/decompress/read_bitstream.h:330-362 | keeps the position, reads inside the buffer, loads at least 57 bits when unfinished and otherwise all; reports an overflow exactly when the end was passed |
| BitReader.BitDecoder.EndOfStream | lib/decompress/read_bitstream.h:373-377 | true exactly when every bit was read |
| Decoder.UnaryDecoder | lib/decompress/decmp.c:89-98 | decodes the loaded bits as the unary code or passes their end |
| Decoder.RiceDecoder | lib/decompress/decmp.c:114-125 | decodes the loaded bits as the Rice code or passes their end |
| Decoder.GolombDecoder | lib/decompress/decmp.c:139-169 | decodes the loaded bits as the Golomb code or passes their end; meaningless values stay small |
| Decoder.CodeWordInRegister | lib/decompress/decmp.c:206-275 | a code word found in the register is the stream's; one that is longer than the register belongs to no codable value |
| Decoder.DecodeZero | lib/decompress/decmp.c:206-229 | succeeds exactly when the rest of the stream holds a sound zero escape value, returns it and its rest |
| Decoder.DecodeMulti | lib/decompress/decmp.c:241-275 | succeeds exactly when the rest of the stream holds a sound multi escape value, returns it and its rest |
| Decoder.DecodeValueFrom | lib/decompress/decmp.c:311-330 | returns the value with the model added back |
| Decoder.DecodeSample | lib/decompress/decmp.c:1205-1273 | decodes the fields of a sample, each cut to its width |
| Decoder.DecompressLoop | lib/decompress/decmp.c:414-487 | fails exactly when the stream is corrupt; otherwise data and updated model stand in their buffers, also when model and updated model are one buffer; for zero samples the exit test wraps and the run fails at the first one |
| DataTypes.SampleSizeIsLayout | lib/common/cmp_data_types.c:527-594 | the size table is the sum of the field widths for every type, fast cadence and adaptive ones included |
| DataTypes.FluxSubservices | lib/common/cmp_data_types.c:383-425 | the fields of the samples of subservices 9 to 20 follow from cadence, centroid and extended flux alone |
| DataTypes.OtherSubservices | lib/common/cmp_data_types.c:383-425 | the other subservices with a data type, the size of their samples and what their fields are |
| DataTypes.FrontEndCamera | lib/common/cmp_data_types.c:383-425 | which subservices have data types of their own for the same layout |
| Config.NeededParsAreUsed | lib/common/cmp_support.c:498-569 | the parameters checked for a type, fast cadence included, are exactly those its fields use |
| Config.ChecksAreExact | lib/common/cmp_support.c:367-665 | in the non-raw modes the checks pass if and only if the loops' configuration is valid |
| Config.ModesMean | lib/common/cmp_support.c:146-179 | the modes 1 and 3 predict from the model, 2 and 4 from the sample before; 1 and 2 use the zero escape bits, 3 and 4 the multi escape bits |
| Parameters.ChunkTypesAreSupported | lib/icu_compress/cmp_chunk_type.c:35-82 | a subservice has no chunk type exactly when it has no data type or a fast cadence one |
| Parameters.InitCfg | lib/icu_compress/cmp_icu.c:1948-2073 | after all assignments each slot holds its owner's parameter and derived threshold, and nothing where no parameter lives; rounding is off |
| Parameters.EveryParameterIsConfigured | lib/icu_compress/cmp_icu.c:1948-2073 | no assignment to a named parameter destroys another one |
| Parameters.SlotsAreDistinct | lib/common/cmp_support.h:158-228 | different parameters of a chunk type live in different slots |
| Parameters.FieldsHaveParameters | lib/icu_compress/cmp_icu.c:1963-2065 | every field of every collection of a chunk has a parameter whose threshold is derived for the field's width |
| Parameters.InitialSpillsFit | lib/icu_compress/cmp_icu.c:1733-1740 | all derived thresholds fit the header |
| Parameters.HeaderKeepsConfiguration | lib/decompress/decmp.c:1647-1764 | reading a header that was built gives the configuration back |
| Parameters.HeaderIsReadIff | lib/decompress/decmp.c:1647-1764 | a header is read exactly if its mode is one of the five and agrees with the raw bit, model value and rounding are in range, and both sizes can be those of a chunk |
| Parameters.SlotsSurviveHeader | lib/decompress/decmp.c:1742-1755 | through the header each field is decoded with the caller's parameter and the threshold derived for it |
| Chunks.ColIsCodable | lib/icu_compress/cmp_icu.c:1786-1815 | a collection that passes the checks has whole samples and a valid configuration |
| Chunks.PayloadSize | lib/icu_compress/cmp_icu.c:1831-1857 | a payload is shorter than the data or is the data |
| Chunks.ColFrameSize | lib/icu_compress/cmp_icu.c:1786-1870 | a frame has whole bytes and is at most its length field larger than the collection |
| Compressor.PadBitstream | lib/icu_compress/cmp_icu.c:1484-1505 | after a successful compression padding always fits and only zeroes the rest of the last word |
| Compressor.CompressStream | lib/icu_compress/cmp_icu.c:1522-1614 | leaves the padded stream, or reports a small buffer exactly when it does not fit |
| Compressor.CompressRaw | lib/icu_compress/cmp_icu.c:1536-1549 | copies the data, or reports a small buffer and changes nothing |
| Compressor.CompressPayload | lib/icu_compress/cmp_icu.c:1831-1857 | with or without destination, in any capacity, the payload of the format is produced; failure is reported exactly when neither the raw data nor the stream fits; the updated model is that of the attempt that counts |
| Compressor.SetCmpColSize | lib/icu_compress/cmp_icu.c:1755-1765 | writes the length field, or refuses what does not fit it |
| Compressor.FrameCollection | lib/icu_compress/cmp_icu.c:1817-1870 | length field, header and payload stand behind each other; the field never overflows |
| Compressor.CmpCollection | lib/icu_compress/cmp_icu.c:1786-1870 | reports the first failed check and changes nothing, or produces the collection's frame and updated model, or reports a small buffer exactly when the frame does not fit |
| ChunkCompressor.CompressCollections | lib/icu_compress/cmp_icu.c:2153-2180 | after every collection the destination holds the frames so far and the rest of the model is untouched; an error is the chunk's first one, or a small buffer, reported exactly when a collection met before does not fit |
| ChunkCompressor.CompressChunk | lib/icu_compress/cmp_icu.c:2124-2186 | any success produces the one canonical compressed chunk, its size, header and updated model; every error is explained, the small buffer by an if and only if, those of the header and of its two times last |
| Acceptance.AcceptedIff | lib/icu_compress/cmp_icu.c:1786-1815 | a chunk is accepted if and only if it is a number of collections, one after the other, each of whole samples, of the chunk's type and with parameters in range |
| Acceptance.LookedAtIff | lib/icu_compress/cmp_icu.c:2138-2147 | a chunk is looked at if and only if it has a header, is not too large and begins with one of sixteen subservices |
| Entities.PayloadRoundTrip | lib/decompress/decmp.c:1541-1605 | a coded payload with its padding decodes to the data and the encoder's updated model |
| Canonical.PayloadIsCanonical | lib/decompress/decmp.c:1541-1605 | without rounding, and with thresholds no larger than the fields, a payload that decodes begins with the encoder's stream of the data it decodes to |
| Entities.ColRoundTrip | lib/decompress/decmp.c:1873-1927 | a frame, coded, raw or empty, decodes to its collection and updated model, whatever follows it |
| Entities.ChunkRoundTrip | lib/decompress/decmp.c:1945-2030 | the frames of an accepted chunk are counted correctly and decode to the chunk and its updated model |
| Decompressor.DecompressPayload | lib/decompress/decmp.c:1541-1605 | data and updated model stand in the buffers exactly when the payload decodes |
| Decompressor.DecompressCollection | lib/decompress/decmp.c:1873-1927 | fails exactly for a bad frame; a frame stored raw is accepted for every data type, a coded one of a fast cadence type is not; otherwise the collection and its updated model stand in place |
| Decompressor.CountFrames | lib/decompress/decmp.c:1835-1854 | counts the frames exactly when the last one ends where the data end |
| EntitySize.FramesIff | lib/decompress/decmp.c:1835-1854 | n frames are counted if and only if the data are n frames, one after the other, each as long as its length field says |
| Decompressor.FindFrame | lib/decompress/decmp.c:1873-1893 | finds frame n and the place of its collection in the chunk |
| Decompressor.DecompressFrames | lib/decompress/decmp.c:1990-2030 | decodes all frames to consecutive places, in place in the model if wanted |
| Decompressor.DecompressEntity | lib/decompress/decmp.c:1945-2030 | succeeds exactly when header and frames are sound, and then returns the chunk and the updated model |
| EntitySize.ReturnedSizeIff | lib/decompress/decmp.c:1930-2030 | the returned size is that of the decoded data if and only if the entity holds nothing, is raw, or its collections announce that size together |
| EntitySize.ReturnedTooMuch | lib/decompress/decmp.c:1930-2030 | for every size above twelve bytes an entity of which that size is returned and twelve bytes are decoded |
| ChunkTheorems.FramesBound | lib/cmp_chunk.h:36-43 | a compressed chunk is at most its length fields larger than the chunk |
| ChunkTheorems.ChunkSizeBound | lib/icu_compress/cmp_icu.c:2206-2233 | succeeds exactly when the collection sizes add up and the bound fits, and returns the bound for the number of collections |
| ChunkTheorems.BoundIsEnough | lib/icu_compress/cmp_icu.c:2155-2185 | with at least that capacity no small buffer is ever reported and the size stays within the bound |
| Capacity.FallbackIsTight | lib/icu_compress/cmp_icu.c:1831-1857 | data are stored raw only if their stream would not save a word, and coded only if that saves a byte |
| Capacity.BoundIsLeast | lib/cmp_chunk.h:36-43 | the bound is the least multiple of 4 that covers the worst size of a mode that compresses |
| Capacity.BoundIsTight | lib/icu_compress/cmp_icu.c:2206-2233 | any number of empty collections compress to the worst size, less than a word below the bound, in every mode that compresses |
| Capacity.CapacityNeeded | lib/icu_compress/cmp_icu.c:2099-2186 | an accepted chunk is compressed into every buffer of its compressed size, rounded up to words, and into none that is smaller than the compressed size |
| Capacity.QueryGivesCapacity | lib/icu_compress/cmp_icu.c:2099-2186 | a destination of the queried size, rounded up to words, is large enough for the real run, which then fails only if the header cannot be built |
| ChunkTheorems.StreamLengthsDoNotWrap | lib/icu_compress/cmp_icu.c:136-192 | stream lengths of a chunk stay below 2^28, so the unchecked 32-bit additions cannot wrap |
| ChunkTheorems.NoStreamWraps | lib/icu_compress/cmp_icu.c:2153-2180 | at every step of the loop over the collections, the next collection and its payload begin and end within the worst size, and the stream put there stays below 2^28 bits |
| ChunkTheorems.RawMarkerIsUnambiguous | lib/decompress/decmp.c:1892-1905 | the length field equals the collection's length if and only if it was stored raw, is smaller otherwise and fits 16 bits |
| ChunkTheorems.RawFrames | lib/icu_compress/cmp_icu.c:1522-1614 | in raw mode the compressed data are the chunk |
| ChunkTheorems.EntityRoundTrip | lib/decompress/decmp.c:1945-2030 | whenever compress_chunk succeeds, decoding returns exactly the chunk and the encoder's updated model |
| SizeQuery.SizeQueryAgrees | lib/icu_compress/cmp_icu.c:1831-1857 | with enough capacity the real run makes the query's decisions, also when the query wrote the updated model; its size is the queried one unless the model was updated in place or the header cannot be built |
| SizeQuery.HeaderIsBuiltWhen | lib/icu_compress/cmp_icu.c:1890-1934 | for every accepted chunk, the header can be built if and only if the compressed size fits 24 bits, the chunk type's parameters 16, the model value 8 and both times 48 |
| SizeQuery.SizeQueryIsTooOptimistic | lib/icu_compress/cmp_icu.c:1890-1934 | a chunk whose query succeeds and whose header cannot be built |
| SizeQuery.SizeFieldOverflows | lib/common/cmp_entity.c:144-160 | a chunk of accepted size whose raw mode query, whatever the parameters, reports more than the size field holds |
| SizeQuery.InPlaceQueryMisleads | lib/icu_compress/cmp_icu.c:2099-2106 | a chunk and a model for which a query that updates the model in place reports another size than the run after it has |
| SizeQuery.QueryIsReliableIff | lib/icu_compress/cmp_icu.c:2099-2106 | the real run has the queried size for every chunk if and only if the query does not update the model in place in a model mode |
| EntityMemory.HeaderReadBack | lib/common/cmp_entity.h:116-141 | the getters read from memory what the setters wrote, in the layout of the entity, whatever stands behind the header |
| EntityMemory.EntityLayout | lib/common/cmp_entity.h:116-141 | every field of the header stands at the bits the format gives it, most significant bit first |
| Formats.ParametersInHeader | lib/icu_compress/cmp_icu.c:1890-1934 | each of the caller's parameters for the chunk's subservice stands in its own place in the header of the entity |
| Formats.CollectionHeaderIs | lib/common/cmp_data_types.h:76-109 | the getters read subservice and data length from a collection header made of its seven fields |
| EntityMemory.MemoryRoundTrip | lib/decompress/decmp.c:1945-2030 | whenever compress_chunk succeeds, the bytes it left decode to exactly the chunk and the encoder's updated model |
| EntityMemory.CompressChunkInMemory | lib/icu_compress/cmp_icu.c:2124-2186 | after a success the destination begins with an entity that decodes to the chunk, and the rest is as compress_chunk's frames left it |
| EntityMemory.DecompressMemory | lib/decompress/decmp.c:1945-2030 | reads header and frames from the bytes of an entity, and leaves chunk and updated model in their buffers exactly when these are sound |
| DecodeQuery.EntityQuery | lib/decompress/decmp.c:1545-1548 | the call without output buffer succeeds whenever a real one does, and for frames that were all stored raw the real one succeeds whenever it does |
| DecodeQuery.AcceptedFrameIs | lib/decompress/decmp.c:1873-1927 | the query accepts a frame if and only if it is of a known type, has whole samples, is no longer than its collection, fits the room left and, if coded, has a valid configuration and the model it needs |
| DecodeQuery.DecodedFrameIs | lib/decompress/decmp.c:1873-1927 | a frame that decodes was accepted by the query and yields a collection with its header and announced length; one stored raw yields itself |
| DecodeQuery.AnswerIsReliableIff | lib/decompress/decmp.c:1545-1548 | an entity the query accepts decodes whatever its payloads hold if and only if every frame was stored raw |
| DecodeQuery.QueryAcceptsCorrupt | lib/decompress/decmp.c:1545-1548 | an entity the query accepts and every decoding rejects |
| DecodeQuery.QuerySize | lib/decompress/decmp.c:1945-2030 | without output buffer the checks of every frame's header decide; collections stored raw are copied to the updated model |
| MultiFrame.StepInLockstep | lib/decompress/decmp.c:2015-2023 | after a frame, sent as the bytes of its entity, model buffers updated in place are equal on both sides |
| MultiFrame.Lockstep | lib/icu_compress/cmp_icu.c:1837-1852 | over any number of frames with any modes and fallbacks every chunk is returned and the models stay equal |
| Rdcu.CompressImagettes | lib/icu_compress/cmp_icu.c:1522-1614 | the destination holds the padded stream, or a small buffer is reported |
| Rdcu.AdaptiveSize | lib/icu_compress/cmp_icu.c:2318-2330 | the adaptive sizes are those the other parameter pairs would compress to |
| Rdcu.AdaptiveIsMain | lib/icu_compress/cmp_icu.c:2318-2330 | an adaptive size is what a run without destination reports when the adaptive parameter pair is the main one, and 0 if that run fails or there is no such pair |
| Rdcu.CompressLikeRdcu | lib/icu_compress/cmp_icu.c:2281-2354 | the outcome and the metadata that describe it, including the small buffer bit and the adaptive sizes |
| Rdcu.DecompressRdcu | lib/decompress/decmp.c:2051-2084 | succeeds exactly when metadata and stream are sound, with data and updated model in place, also when the stream fills the buffer to its last byte; reads the bytes the stream's length takes |
| Acceptance.RdcuAcceptsIff | lib/decompress/decmp.c:2051-2084 | metadata and stream are accepted if and only if no error was recorded, mode, rounding, model value and parameters are in range, a model is there if needed, and the stream holds the samples |
| Rdcu.LossyRoundTrip | lib/decompress/decmp.c:414-487 | the stream decodes to the data with the low bits of every sample cleared and to the encoder's updated model |
| Rdcu.NoLengthWraps | lib/icu_compress/cmp_icu.c:136-192 | up to 2^26 - 8 samples the unchecked 32-bit lengths of stream and padding neither wrap nor look like an error code |
| Rdcu.RdcuRoundTrip | lib/decompress/decmp.c:2051-2084 | decompress_rdcu_data undoes compress_like_rdcu up to the rounding, with the same updated model, however tight the destination is |
| Rdcu.TruncationIsRejected | lib/decompress/decmp.c:414-487 | every proper beginning of a compressed payload is rejected |
| Rdcu.MissingBytesAreNoticed | lib/decompress/decmp.c:1545-1548 | a byte length that holds less than the stream leads to an error |
| Rdcu.RoundTripNeedsASample | lib/decompress/decmp.c:481-482 | compression followed by decompression succeeds if and only if the mode is raw or there is at least one sample |
| Rdcu.LossyLockstep | lib/common/cmp_cal_up_model.h:87-116 | over any number of frames, each with its own mode, parameters and rounding, the models stay equal and every frame decodes to its rounded samples |
| IntrusiveList.InsertBetween | examples/leon/list.h:81-87 | the node stands between two neighbours of a sound circle |
| IntrusiveList.AddTail | examples/leon/list.h:346-349 | the node is the last of the list |
| IntrusiveList.Unlink | examples/leon/list.h:281-285 | the circle closes over the removed node |
| IntrusiveList.Delete | examples/leon/list.h:295-300 | the node is removed and its links cleared |
| IntrusiveList.MoveTail | examples/leon/list.h:414-419 | the node becomes the last of another list, or of its own, and all lists stay sound |
| IntrusiveList.Replace | examples/leon/list.h:360-367 | the new node takes the old one's place, also in a circle of its own |
| IntrusiveList.Swap | examples/leon/list.h:375-385 | two entries, of one list or of two, change places, also when they are neighbours |
| DescriptorRing.CoreAtFirstEnabled | examples/leon/grspw2.c:1008-1086 | the descriptor the core works on is enabled exactly when one is in flight |
| DescriptorRing.CompleteKeeps | examples/leon/grspw2.c:1008-1086 | a completion by the core keeps the invariant and touches only its own buffer |
| DescriptorRing.ReleaseKeeps | examples/leon/grspw2.c:1008-1012 | releasing a completed descriptor keeps the invariant |
| DescriptorRing.ActivateKeeps | examples/leon/grspw2.c:1211-1231 | enabling a free descriptor keeps the invariant |
| DescriptorRing.FillKeeps | examples/leon/grspw2.c:1302-1358 | no buffer in flight is rewritten |
| DescriptorRing.RxStepKeeps | examples/leon/grspw2.c:1648-1704 | every access of driver or core keeps the receiver's invariant |
| DescriptorRing.PacketsInOrder | examples/leon/grspw2.c:1648-1704 | after any interleaving of the accesses the delivered packets are the first received ones in order, at most a table of packets waits, and every descriptor is listed exactly once |
| DescriptorRing.PacketIsReceivedIff | examples/leon/grspw2.c:1211-1231 | in every reachable state the core takes a packet in exactly if some descriptor is enabled |
| DescriptorRing.EverythingDelivered | examples/leon/grspw2.c:1648-1704 | from every reachable state the driver can go on to deliver every packet that was received |
| DescriptorRing.TakeIsItsSteps | examples/leon/grspw2.c:1284-1290 | the accesses of retrieving or dropping a packet together hand it on and re-add its descriptor |
| DescriptorRing.ReleaseAllKeeps | examples/leon/grspw2.c:1031-1044 | all completed descriptors and no others are released |
| DescriptorRing.AddPacketIs | examples/leon/grspw2.c:1302-1358 | a packet is refused exactly when every descriptor is in flight; otherwise it joins the packets in flight, which are unchanged |
| DescriptorRing.AddPacketIsItsSteps | examples/leon/grspw2.c:1326-1358 | the accesses of adding a packet together release the completed descriptors and submit the packet, or only release |
| DescriptorRing.TxStepKeeps | examples/leon/grspw2.c:1302-1358 | every access of driver or core keeps the transmitter's invariant |
| DescriptorRing.SentInOrder | examples/leon/grspw2.c:1302-1358 | after any interleaving of the accesses the core has sent the first submitted packets unchanged and in order, at most a table of packets is in flight, and every descriptor is listed exactly once |
| DescriptorRing.PacketIsSentIff | examples/leon/grspw2.c:1302-1358 | in every reachable state the core sends a packet exactly if some descriptor is enabled |
| DescriptorRing.EverythingSent | examples/leon/grspw2.c:1302-1358 | from every reachable state the core can go on to send every packet that was submitted |
| DescriptorRing.ClearAllKeepsIff | examples/leon/grspw2.c:1053-1063 | clearing the used list keeps the invariant if and only if no used descriptor is enabled |
| DescriptorRing.ClearAllBreaks | examples/leon/grspw2.c:1053-1063 | a fresh table with one descriptor added is sound, and cleared it is not |
| DescriptorRing.TableMustBeFull | examples/leon/grspw2.h:293-320 | a completion of a core whose own table has wrap descriptors keeps the invariant if and only if it is not at the end of the driver's table or both tables have one size |
| TransmitControl.ControlIsAsRequestedIff | examples/leon/grspw2.c:1339-1348 | a reused descriptor carries the request if and only if the sizes fit their fields and what the request leaves out was not set before |
| TransmitControl.StaleControl | examples/leon/grspw2.c:1339-1348 | a second packet that inherits the non-CRC bytes of the first |
| DescriptorDriver.TableInit | examples/leon/grspw2.c:866-971 | of the given descriptors those that fit the table are in the free list in table order, disabled, and the used list is empty |
| DescriptorDriver.FittingIsExact | examples/leon/grspw2.c:887-890 | every listed descriptor lies in the table, and no further one of the driver's would |
| DescriptorDriver.FullTables | examples/leon/grspw2.h:274-284 | the driver's tables list all 128 receive and all 64 transmit descriptors and have no room for another |
| DescriptorDriver.Driver.constructor | examples/leon/grspw2.c:866-971 | the lists of a fresh driver are sound and describe the fresh table |
| DescriptorDriver.Driver.MoveFree | examples/leon/grspw2.c:1008-1022 | a used descriptor goes to the end of the free list; for the first one this is the release of the model |
| DescriptorDriver.Driver.MoveBusy | examples/leon/grspw2.c:1070-1086 | a free descriptor goes to the end of the used list; for the first one this is the move of the model |
| DescriptorDriver.Driver.AddDescriptor | examples/leon/grspw2.c:1211-1231 | fails exactly when no descriptor is free, otherwise enables the first free one |
| DescriptorDriver.Driver.GetPacket | examples/leon/grspw2.c:1648-1678 | returns size and bytes of the packet of the first used descriptor behind the stripped ones, counts its bytes and re-adds a descriptor, or only returns the size, which wraps for a packet too short; nothing happens while the descriptor is active |
| DescriptorDriver.Driver.DropPacket | examples/leon/grspw2.c:1685-1704 | the same without the packet |
| DescriptorDriver.StripFitsIff | examples/leon/grspw2.c:1664-1674 | the bytes copied from behind the stripped ones are the rest of the packet if and only if it has that many; otherwise their number wraps |
| DescriptorDriver.ShortPacketWraps | examples/leon/grspw2.c:1664-1674 | a packet shorter than the bytes to strip, and the size computed for it |
| DescriptorDriver.Driver.ReleaseAll | examples/leon/grspw2.c:1031-1044 | releases inactive descriptors up to the first active one |
| DescriptorDriver.Driver.AddPacket | examples/leon/grspw2.c:1302-1358 | refuses sizes without a buffer; otherwise as much of header and data as the size fields can say goes to a free descriptor, whose control word alone changes, and it is enabled, or the call fails leaving only the released descriptors |
| DescriptorDriver.SentWholeIff | examples/leon/grspw2.c:1331-1342 | header and data are sent whole if and only if their sizes fit the fields of the descriptor |
| DescriptorDriver.Driver.SendPacket | examples/leon/grspw2.c:1712-1732 | the bytes of exactly the packets that were added are counted |
| DescriptorDriver.Driver.CoreStep | examples/leon/grspw2.c:1031-1044 | the core's completion between two driver calls leaves the lists sound |

## Left out

- Byte order: a big-endian processor is fixed, so `be_to_cpu_chunk` and its siblings are the identity and are not modelled.
- Loops for fast cadence (F_FX) collections: neither side has any; their data types, sizes and checks are modelled.
- EntityMemory.CompressChunkInMemory: what the header's bytes hold when it could not be built, where the source has written the fields that fit.
- NULL data and overlapping buffers other than model and updated model: they are preconditions, as are buffers of the documented size.
- EntityMemory.DecompressMemory: entities of the RDCU's data types, which take the path of `Rdcu` with a header of their own, are excluded.
- Decompressor.DecompressEntity: an output buffer is given, and the data type is that of a chunk; `DecodeQuery` has the call without buffer, `EntityMemory` the check of the type.
- The configuration structure is a value handed along instead of a structure updated through a pointer; `cmp_collection` restores the one field it changes for the fallback, so nothing is lost.
- BitWriter.PutNBits32: lengths are unbounded numbers; the source adds 32-bit lengths without a check. `ChunkTheorems.NoStreamWraps` and `Rdcu.NoLengthWraps` show for chunks, and for up to 2^26 - 8 samples on the RDCU path, that none wraps.
- Compressor.SetCmpColSize: its error is modelled, but no collection can cause it.
- Decoder.DecompressLoop: with zero samples the source writes a first sample, if it finds one, behind the buffers it was given; the contract demands that there is none to find, as for every stream the encoder makes of no samples. `Rdcu.DecompressRdcu` and `Decompressor.DecompressPayload` inherit this.
- DescriptorDriver.Driver.GetPacket: what is copied from a packet shorter than the bytes to strip, which lies behind it in memory.
- DescriptorDriver.Driver.AddPacket: sizes are not compared with the descriptor's buffers, as in the source.
- DescriptorDriver.Driver.CoreStep: a completion by hardware that the source only assumes.
- DescriptorDriver.TableInit: addresses and buffer sizes of the descriptors; an initialised buffer is empty.
- DescriptorRing.PacketsInOrder: driver calls that interrupt one another, as the routing interrupt handler could.
- RDCU hardware control, interrupt dispatch, register access, debug output and the imagette entity headers.
