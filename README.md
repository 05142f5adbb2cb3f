# CntToArray: a verified model of the TFA98xx container writer

`CntToArray.c` takes a TFA98xx amplifier container file. It walks the
container's device and profile lists and turns every DSP message they hold
into the 32-bit command stream the driver would send to the chip. This
project models that core in Dafny and proves what it does. The parts
modelled are:

- **The container index.** A loaded container fills the globals `g_cont`,
  `g_devs`, `g_dev`, `g_profs` and `g_prof`; the lookups read them back.
- **The volume-step chain.** The walker goes from register info to message
  info and on to the next step of a `volstep` max2 file.
- **The writers.** `tfa_cont_write_vstepMax2`, `tfa_cont_write_file`,
  `tfa_cont_write_files` and `tfa_cont_write_files_prof` are modelled, and
  so is the per-message encoder `tfa_cont_write_vstepMax2_One` with its
  partial-update buffer.
- **The coefficient update.** `dsp_partial_coefficients` sends the
  changed biquads or equaliser groups, whichever costs less.
- **The buffer pool.** `tfa98xx_buffer_pool_access` and `tfa_buffer_pool`
  manage it; `tfa_set_swvstep` and `tfa98xx_cnt_max_device` are modelled
  with it.
- **The codecs and byte helpers.** The 24/32-bit codecs are
  `tfa_msg24to32` and `create_dsp_buffer_msg`. `dsp_msg` is modelled as an
  append to a log of sent messages. `swap_uint32` and `cpu_to_be16` are
  modelled too.

The container is a `seq<byte>` and every structure is decoded at its
packed (`#pragma pack(1)`) offset. A pointer into the container becomes an
offset into it. The globals that change become classes:

- `ContainerCache` holds the container globals.
- `Dsp` holds `g_out32buf`, `cmd_count` and the log of sent messages.
- `Handles` holds `handles_local`.
- `Tool` holds these three and the static `p_reg_info`.

A writer is specified by an `Effect`: the messages it sends, the error it
returns, and the volume step it saves, if any. Where the outcome of
`malloc` matters, it is a parameter: `mallocOk` for the vstep writers and
`allocs` (the number of allocations that succeed) for the coefficient
update.

Two receivers are written beside the senders as independent reference
definitions. `PatchReceiver` applies a partial-update message to the
previous data. `Coefficients.ReceiveAll` applies coefficient messages to
the previous table. The round-trip lemmas prove that what the sender
builds brings the receiver to the new data.

How the code behaves, as written:

- **Set items in `tfa_cont_write_files`.** The `create_dsp_buffer_msg`
  call is commented out. A set item therefore sends the zero-filled local
  buffer, sized by the last command item before it (0 when there is none).
  `Driver.DevItemEffect` models exactly that.
- **The partial update is never enabled.** `enp` in
  `tfa_cont_write_vstepMax2` is never set to 1. The writer always calls
  the encoder with the partial update off, so the `p_msg_info` walk never
  runs. The encoder itself is modelled and proved with the partial update
  on.
- **The error branch after a vstep message cannot run.**
  `tfa_cont_write_vstepMax2_One` always returns OK: `dsp_msg` never fails,
  and a failed `malloc` of the send buffer exits with `err` still OK. So
  the branch that clears `p_reg_info` is unreachable; `Driver.WriteOne`
  proves `err == ErrorOk`.
- **`tfa_cont_write_file` ignores the error of a volume-step file.**
  `tfa_cont_write_vstepMax2` is called without keeping its result, so a
  refused step still gives OK.

## Model

| member | source | states |
|---|---|---|
| Bytes.U16LE | CntToArray.c:246-251 | a little-endian 16-bit header field (`id`, `size`) or command size reads as a value below 2^16 |
| Bytes.U24BE | CntToArray.c:628-632 | the 3-byte message length, most significant byte first, is below 2^24 |
| Bytes.S32LE | CntToArray.c:327-331 | a `tfa_msg` data word is the little-endian two's-complement `int` of its four bytes: in the signed 32-bit range, equal to the four bytes' little-endian value modulo 2^32, and negative exactly when the top bit of the last byte is set |
| Bytes.DescriptorBytes | CntToArray.c:119-122 | a descriptor's offset is its low three bytes (little-endian) and its type is the fourth byte, both within their bit widths |
| Bytes.HdrInjective | CntToArray.c:308-320 | `HDR(c1,c2)` equals the 16-bit little-endian header id, and two header tags are equal exactly when both characters are |
| Bytes.SwapUint32 | CntToArray.c:444-453 | byte k of the result is byte 3-k of the input, for every k |
| Bytes.SwapUint32Involution | CntToArray.c:444-453 | swapping twice gives the value back |
| Bytes.CpuToBe16 | CntToArray.c:455-462 | the result is a 16-bit value whose high byte is the input's low byte and whose low byte is the input's high byte |
| Bytes.StoreBigEndian | CntToArray.c:1163 | the change mask stored in place after `cpu_to_be16` lies in memory most significant byte first |
| Codec24.SignExtend24 | CntToArray.c:776-777 | the sign-extended value is in the signed 24-bit range and agrees with its input modulo 2^24 |
| Codec24.SignExtendOfMod | CntToArray.c:776-777 | sign-extending the low 24 bits of any value keeps them, and gives back every value already in the signed 24-bit range |
| Codec24.WordCount | CntToArray.c:773-782 | the loop runs ceil(length/3) times: 3n covers the length and overshoots it by less than 3 |
| Codec24.Msg24To32 | CntToArray.c:768-786 | the loop writes the decoded words into the first ceil(length/3) entries of the output buffer, word k being the sign extension of the three big-endian input bytes at 3k; it leaves the rest of the buffer alone and returns (length/3)*4 |
| Codec24.WordBytesValue | CntToArray.c:1256-1261 | the three bytes stored for a data word read back big-endian as the word modulo 2^24 |
| Codec24.PackWordsAt | CntToArray.c:1254-1262 | data word j lands at bytes 3j..3j+3 of the packed data |
| Codec24.PackUnpack | CntToArray.c:1254-1262 | decoding packed words gives each word's low 24 bits, sign-extended |
| Codec24.PackUnpackExact | CntToArray.c:1254-1262 | words in the signed 24-bit range survive packing and decoding unchanged |
| Codec24.PackUnpackAt | CntToArray.c:1254-1262 | word j of the packed data reads as the word modulo 2^24 and decodes to its sign extension |
| Codec24.TfaMsgData | CntToArray.c:327-331 | a `tfa_msg` at offset t carries `msg_size` data words, and word j is the signed 32-bit `int` whose value modulo 2^32 is the little-endian reading of the four bytes at t+4+4j |
| Codec24.DspBufferBytes | CntToArray.c:1246-1266 | the DSP buffer of a `tfa_msg` has 3 + 3*`msg_size` bytes |
| Codec24.CreateDspBufferMsg | CntToArray.c:1246-1266 | the buffer's prefix becomes the reversed command id followed by the packed data words, the rest is untouched, and `size` is 3 + 3*`msg_size` |
| Codec24.DspBufferWord | CntToArray.c:1254-1262 | bytes 3+3j..6+3j of the DSP buffer are data word j, big-endian |
| Codec24.DspBufferUnpacks | CntToArray.c:768-786 | decoding a DSP buffer gives the reversed command id as its first word and each data word's low 24 bits, sign-extended |
| Transport.Dsp.constructor | CntToArray.c:767-792 | nothing sent yet, `cmd_count` starts at 1 and `g_out32buf` is all zero |
| Transport.Dsp.DspMsg | CntToArray.c:866-878 | `dsp_msg` always returns OK, appends exactly the first `size` bytes to the log, adds 1 to `cmd_count` modulo 256, and leaves the decoded words in `g_out32buf` with the rest of it unchanged |
| Container.ProfPrefixTagged | CntToArray.c:590-608 | the profiles found among the first k items are exactly the profile-tagged items, no more of them than k |
| Container.ProfPrefixGrows | CntToArray.c:590-608 | the profiles among the first k items are a prefix of those among the first m >= k |
| Container.GetDevProfList | CntToArray.c:590-608 | the loop returns the `prof_idx`-th profile-tagged item of the device, or none |
| Container.ContainerCache.constructor | CntToArray.c:433-437 | the static start: no container and `g_devs` = -1 |
| Container.ContainerCache.GetDevs | CntToArray.c:1534-1558 | `cont_get_devs` leaves the cache indexed for the container, and device entries past `ndev` untouched |
| Container.ContainerCache.CacheDevices | CntToArray.c:1540-1543 | each `g_dev[i]` below `ndev` becomes the container's i-th device list; the others are untouched |
| Container.ContainerCache.CacheProfiles | CntToArray.c:1545-1555 | the profile loop counts the device's profiles and stores each in order, touching no other device's entries |
| Container.ContainerCache.LoadCnt | CntToArray.c:1569-1614 | loading succeeds exactly when length, header tag, size and sub-version are accepted; then the cache is indexed for the new container; otherwise `g_cont` is NULL and the cache is untouched |
| Container.CachedDevice | CntToArray.c:576-618 | once loaded, `tfa_cont_device` answers as `tfa_cont_get_dev_list` on the container: the device list of index entry i when i is below `ndev` and the entry is tagged `dsc_device`, and none otherwise |
| Container.CachedProfile | CntToArray.c:1470-1481 | once loaded, `tfa_cont_profile` answers as the container's own profile lookup, and none past `ndev` |
| VstepChain.NextMsgFollows | CntToArray.c:634-648 | the next message's type byte is the first byte after this message: after its `message_length` bytes for an info message (type 3), otherwise right after the command id and parameter data that `MessageAt` reads |
| VstepChain.WalkAdvances | CntToArray.c:634-648 | each message position in a round is the previous one's successor, has a readable header and lies before the round's end |
| VstepChain.NextRegAdvances | CntToArray.c:620-657 | the next step's register info lies past this step's register count, its 4-byte registers, its message count and its messages |
| VstepChain.RegFromAdd | CntToArray.c:659-679 | walking a+b steps is walking a steps and then b more |
| VstepChain.RegFromIncreasing | CntToArray.c:659-679 | each step walked moves the register info at least 2 bytes on |
| VstepChain.GetRegForVstep | CntToArray.c:659-679 | the loop ends at the register info of step `idx` (no step for a negative index) |
| VstepChain.MessageAt | CntToArray.c:272-278 | a message has its header's type and length, a 3-byte command id, and 3*(length-1) data bytes that follow the id in the file |
| PartialUpdate.MaskBits | CntToArray.c:1152-1161 | bit k of a block's change mask is set exactly when word k of the window differs, and no bit past the window is set |
| PartialUpdate.Scan | CntToArray.c:1142-1169 | the scan stops within the data, and every block it makes fits its wire format |
| PartialUpdate.Trimmed | CntToArray.c:1171-1186 | trimming keeps a prefix of the blocks that ends with literal words, and drops only blocks without literals |
| PartialUpdate.CopyChangedWords | CntToArray.c:1152-1161 | the inner loop copies the changed words of a window of at most 16 words after the block header, builds their mask, and moves `trim` to the last literal |
| PartialUpdate.WriteBlockBytes | CntToArray.c:1146-1163 | the buffer grows by exactly the encoding of the block at the current word |
| PartialUpdate.WriteBlock | CntToArray.c:1146-1164 | one block of the scan written in place: the buffer holds the header and the blocks so far, and the rest of the scan is unchanged |
| PartialUpdate.BuildPatch | CntToArray.c:1129-1169 | the partial buffer holds the reset header and the encoding of every block the scan makes, and `trim` is the end of its last literal word |
| PartialUpdate.LitsNonEmpty | CntToArray.c:1152-1161 | a window has no literal words exactly when none of its words differs |
| PartialUpdate.ScanOfSame | CntToArray.c:1142-1169 | identical data produce blocks without literal words |
| PartialUpdate.ScanFindsChange | CntToArray.c:1142-1169 | with at least 3 words, a differing word ends up as a literal of some block |
| PartialUpdate.BlockFindsChange | CntToArray.c:1146-1164 | from a block start, with at least 3 words, a differing word ends up as a literal |
| PartialUpdate.ChooseSame | CntToArray.c:1171-1174 | unchanged data are discarded |
| PartialUpdate.ChooseNoChange | CntToArray.c:1171-1174 | with at least 3 words, the message is discarded exactly when the data did not change |
| PartialUpdate.ShortChangeDropped | CntToArray.c:1142-1143 | as written, a message of at most 2 data words is always discarded, whatever changed |
| PartialUpdate.ShortChangeExample | CntToArray.c:1171-1174 | one changed data word of a 1-word message is discarded as written |
| PartialUpdate.ChooseCorrected | CntToArray.c:1171-1189 | nothing is sent exactly when the data did not change, and from 3 words on the decision is the code's own |
| PartialUpdate.SetPartialFlag | CntToArray.c:1183 | bit 6 of the parameter id is set and no other bit changes |
| PartialUpdate.ColdCmd | CntToArray.c:1087-1101 | in the cold state the parameter id becomes SetAlgoParams (type 0) or SetMbdrc (type 2); the first two id bytes and every other id are kept |
| PatchReceiver.WindowOfScan | CntToArray.c:1152-1161 | applying a block's mask and literals to the old words rebuilds the new words of its window |
| PatchReceiver.ScanRoundTrip | CntToArray.c:1142-1169 | when the scan reached the last word, applying the scanned blocks to the old data gives the new data |
| PatchReceiver.ApplyDropEmpty | CntToArray.c:1175-1181 | dropping trailing blocks without literals does not change what they apply to |
| PatchReceiver.DecodePatch | CntToArray.c:1138-1179 | the wire bytes of the blocks, with the zero terminator, decode to the same blocks |
| PatchReceiver.ChooseRoundTrip | CntToArray.c:1129-1189 | when the scan reached the last word, a partial payload starts with the reset header and decodes to blocks that turn the old data into the new |
| PatchReceiver.CutShortIsFull | CntToArray.c:1142-1169 | below 4576 words, a scan stopped by the `len - 3` bound has written at least `len - 3` bytes and ends with a block of new words |
| PatchReceiver.PartialReachesEnd | CntToArray.c:1142-1189 | below 4576 words, a partial update is only chosen when the scan reached the last word |
| PatchReceiver.ChooseRoundTripShort | CntToArray.c:1129-1189 | below 4576 words, every partial payload decodes to blocks that turn the old data into the new |
| Pool.FirstFit | CntToArray.c:688-699 | POOL_GET takes the lowest free buffer of at least the size asked, or -1 when none fits |
| Pool.LeaseIsExclusive | CntToArray.c:694 | a leased buffer is not handed out again |
| Pool.ReturnUndoesGet | CntToArray.c:688-712 | returning a leased buffer restores the pool, and the same request finds it again |
| Pool.LeaseKeepsOthers | CntToArray.c:688-699 | leasing a buffer the request would not take leaves the request's answer alone |
| Pool.StorageFlags | CntToArray.c:688-712 | leasing and returning change no storage |
| Pool.Handle.constructor | CntToArray.c:442 | a static handle: six empty buffers and `vstep` 0 |
| Pool.Handle.Get | CntToArray.c:688-699 | POOL_GET answers the first fit and marks just it in use |
| Pool.Handle.Return | CntToArray.c:702-712 | POOL_RETURN of a buffer in use zeroes it, frees it and gives 0; of a free buffer gives -1 and changes nothing |
| Pool.Handle.Provide | CntToArray.c:734-744 | a successful allocation gives a fresh free buffer of the size asked |
| Pool.Handle.Fail | CntToArray.c:735-740 | a failed allocation leaves a size-0 buffer marked in use |
| Pool.Handle.Drop | CntToArray.c:748-756 | freeing leaves an empty buffer |
| Pool.Handles.constructor | CntToArray.c:442 | every handle starts with empty buffers |
| Pool.Handles.Access | CntToArray.c:682-721 | `tfa98xx_buffer_pool_access`: GET and RETURN as for one handle, any other control gives -1 and changes nothing |
| Pool.Handles.SetSwVstep | CntToArray.c:1268-1277 | both `vstep` entries become the new value; it returns 0 |
| Pool.Handles.BufferPool | CntToArray.c:723-765 | ALLOC allocates buffer `index` on each counted device (`ndev` capped at 4, none without a container) until one allocation fails (FAIL), FREE empties it on each, other controls do nothing; other buffers are kept |
| Pool.Handles.AllocAll | CntToArray.c:730-745 | the allocation loop: the devices before the first failure get fresh buffers, the failing one a size-0 buffer in use |
| Pool.Handles.FreeAll | CntToArray.c:747-756 | the free loop empties buffer `index` on every counted device and no other |
| Coefficients.EqLayout | CntToArray.c:880-895 | six equalisers of 10, 10, 2, 2, 2, 2 biquads fill the 28 biquads; the full message costs 537 |
| Coefficients.GroupBounds | CntToArray.c:910-948 | each equaliser's biquads lie within the coefficient table |
| Coefficients.ChangedMaskBits | CntToArray.c:917-925 | bit j of the mask is set exactly when biquad j changed, and the count is the mask's population |
| Coefficients.ChangedMaskSmall | CntToArray.c:917-925 | the changed mask of an equaliser fits in 10 bits |
| Coefficients.BiquadInGroup | CntToArray.c:918-920 | biquad j is bytes 18j..18j+18 of its equaliser's group |
| Coefficients.GroupSame | CntToArray.c:913-925 | an equaliser group is unchanged exactly when none of its biquads changed |
| Coefficients.CountZero | CntToArray.c:917-925 | the changed count is 0 exactly when no biquad changed |
| Coefficients.GroupCostIsLeast | CntToArray.c:927-943 | a changed equaliser costs the cheaper of the group message and the biquad messages |
| Coefficients.GroupMaskMeaning | CntToArray.c:910-948 | mask 0 means the group is unchanged, all ones means send it whole, any other mask has bit j set exactly for a changed biquad |
| Coefficients.GroupMsgsCost | CntToArray.c:927-943 | the messages sent for an equaliser cost what the cost formula says |
| Coefficients.CoeffMessagesCost | CntToArray.c:906-953 | the messages sent cost the lower of the partial cost and the full-table cost |
| Coefficients.BiquadMsgFields | CntToArray.c:1010-1031 | a biquad message is `00 82 00 00 eq+1 bq+1` followed by that biquad's new coefficients |
| Coefficients.GroupMsgFields | CntToArray.c:979-1000 | a group message is `00 82 00 00 eq+1 00` followed by the equaliser's new coefficients |
| Coefficients.SameTableSendsNothing | CntToArray.c:896-1043 | identical tables send nothing |
| Coefficients.NothingSentIffSame | CntToArray.c:896-1043 | nothing is sent exactly when the biquad tables are equal |
| Coefficients.CoeffRoundTrip | CntToArray.c:896-1043 | applying the sent messages to the previous table gives the new biquads |
| Coefficients.ChangedBiquads | CntToArray.c:917-925 | the biquad loop computes the changed mask and count |
| Coefficients.GroupChoice | CntToArray.c:910-946 | an equaliser's mask and cost are those of the choice |
| Coefficients.CostMasks | CntToArray.c:909-948 | the first loop fills every mask and totals the partial cost |
| Coefficients.SendBiquads | CntToArray.c:1002-1036 | the changed biquads are sent in order until an allocation fails, which gives FAIL |
| Coefficients.SendGroup | CntToArray.c:975-1036 | an equaliser's messages are sent in order until an allocation fails |
| Coefficients.SendItems | CntToArray.c:973-1038 | all equalisers' messages are sent in order until an allocation fails |
| Coefficients.PartialCoefficients | CntToArray.c:896-1043 | `dsp_partial_coefficients` sends the cheaper message list in order, stopping with FAIL at the first failed allocation |
| Driver.OneMessageCarriesData | CntToArray.c:1045-1243 | with the corrected no-change decision, a vstep message is empty exactly when nothing changed (or without the partial update, when it has no data); otherwise it is the command id and all data, or a shorter partial message with the flagged id whose blocks turn the previous data into the new |
| Driver.PayloadCarries | CntToArray.c:1129-1186 | a partial payload starts with the reset header, is shorter than the data, and decodes and applies to the new data when the scan reached the last word or the data has fewer than 4576 words |
| Driver.PartialMessage | CntToArray.c:1175-1186 | a partial update sends the flagged id and the payload, shorter than a full message |
| Driver.PartialWords | CntToArray.c:1175-1186 | a partial payload is a whole number of words, shorter than the data |
| Driver.MessageByTrim | CntToArray.c:1171-1189 | the corrected message follows the position of the last literal: none when it is at the start and the message has at least 3 data words or did not change, partial while it is below `len - 3`, else the whole data |
| Driver.DecisionByTrim | CntToArray.c:1171-1189 | the corrected decision read off the trim position |
| Driver.Fill | CntToArray.c:1215-1216 | the send buffer is the command id followed by the payload |
| Driver.Terminate | CntToArray.c:1177-1179 | the payload is the buffer up to `trim` with the zero terminator |
| Driver.Encode | CntToArray.c:1129-1189 | the partial buffer built in place yields the message of the corrected decision |
| Driver.Decide | CntToArray.c:1171-1189 | the trim decision yields the message of the corrected decision |
| Driver.Acquire | CntToArray.c:1106-1124 | a buffer comes from the pool when one fits, else from `malloc` when it succeeds |
| Driver.Send | CntToArray.c:1191-1228 | the message is sent when a send buffer can be had, and the pool is left as it was |
| Driver.Prepare | CntToArray.c:1059-1189 | the partial buffer is leased when the update applies and one fits, else asked of the first `malloc`; the encoded message is the one of the corrected decision |
| Driver.WriteOne | CntToArray.c:1045-1243 | `tfa_cont_write_vstepMax2_One` returns OK, sends the message of the corrected decision when a send buffer can be had (the two `malloc` outcomes apart), and leaves the pool as it was |
| Driver.NoPartialBufferSendsWhole | CntToArray.c:1112-1208 | without a partial buffer (the first `malloc` at lines 1112-1126) the whole message is still sent when the send buffer's `malloc` (lines 1196-1208) succeeds |
| Driver.SelectOne | CntToArray.c:1313-1325 | a message index below 100 sends just that message of the round, or nothing |
| Driver.SelectAll | CntToArray.c:1313-1325 | an index of 100 or more sends every message of the round, one at a time, in order |
| Driver.VstepOutcome | CntToArray.c:1279-1358 | a step is written exactly when the file has it; then the step (as `unsigned short`) and its register info are saved; a refused step sends and saves nothing |
| Driver.VstepSelected | CntToArray.c:1313-1325 | a written step with an index below 100 sends only the message of its round the index selects, or nothing |
| Driver.FileEffect | CntToArray.c:1360-1411 | a file succeeds exactly when its header type is known; a refused file sends nothing and saves no step |
| Driver.UnreachedStays | CntToArray.c:1425-1430 | after a refused file, no later item is written |
| Driver.DevItemsErr | CntToArray.c:1424-1467 | the device writer returns OK exactly when it got through every item |
| Driver.LastWriter | CntToArray.c:1497-1528 | the last file or set item of a profile, if it has one, comes before the end and is a file or set item |
| Driver.LastWriterIsLast | CntToArray.c:1497-1528 | no file or set item comes after the last writer |
| Driver.ProfItemsErr | CntToArray.c:1497-1531 | the profile writer's error is that of its last file or set item |
| Driver.ProfItemsPrefix | CntToArray.c:1497-1529 | the messages of the first items are a prefix of those of the whole profile |
| Driver.FilesOutcome | CntToArray.c:1413-1468 | `tfa_cont_write_files` succeeds exactly when the device has a list and every file on it is known; no list sends nothing |
| Driver.ProfileFilesOutcome | CntToArray.c:1483-1532 | `tfa_cont_write_files_prof` fails only for a missing profile or a last writing item that is an unknown file |
| Driver.SendSetMessage | CntToArray.c:1515-1526 | a set item sends its DSP buffer |
| Driver.SendRound | CntToArray.c:1310-1338 | the message loop sends the selected messages of the round |
| Driver.SendVstep | CntToArray.c:1279-1358 | the vstep writer sends, returns and saves what `VstepEffect` says |
| Driver.SendFile | CntToArray.c:1360-1411 | the file writer sends, returns and saves what `FileEffect` says |
| Driver.SendDevItem | CntToArray.c:1425-1458 | one device item as specified, tracking the last command size |
| Driver.SendDevItems | CntToArray.c:1413-1468 | the device loop as specified |
| Driver.SendProfItem | CntToArray.c:1499-1528 | one profile item as specified |
| Driver.SendProfItems | CntToArray.c:1483-1532 | the profile loop as specified |
| Driver.Tool.constructor | CntToArray.c:433-442 | the static start: nothing loaded, sent or saved |
| Driver.Tool.WriteVstepMax2 | CntToArray.c:1279-1358 | the vstep writer with `p_reg_info` kept across calls |
| Driver.Tool.WriteFile | CntToArray.c:1360-1411 | the file writer with `p_reg_info` kept across calls |
| Driver.Tool.WriteFiles | CntToArray.c:1412-1468 | with no container, BAD_PARAMETER and nothing sent; otherwise the device's effect |
| Driver.Tool.WriteFilesProf | CntToArray.c:1470-1532 | with no container, BAD_PARAMETER and nothing sent; otherwise the profile's effect |

## Left out

- `main`, file I/O, `fwrite_message`, `print_message`, `printf` and `get_command_string` produce output text only; the model keeps the message bytes in `Dsp.sent` instead.
- `get_profile_name` is not modelled; it only returns a name pointer.
- `malloc` and `free` are modelled by their outcome: `mallocOk` (with `partialMallocOk` for the partial buffer of a vstep message) and `allocs`. Heap exhaustion and the freed memory itself are not modelled.
- The contents of pool buffers beyond the bytes a writer sends are not tracked; returned buffers are zeroed.
- The `#if 0` code is not modelled: `use_partial_coeff`, the bitfield write loop and the verbose command print.
- The `p_msg_info` walk in `tfa_cont_write_vstepMax2` is not modelled: `enp` is never 1, so it never runs.
- The error branches after `tfa_cont_write_vstepMax2_One` and after the `break` checks in `tfa_cont_write_files` are not modelled as branches. Every call they test returns OK, which is proved.
- Reads outside the container, a malformed message length and an oversized DSP buffer are undefined behaviour in C. The model requires the container to hold what it reads (`FileOk`, `DevItemsOk`, `ProfItemsOk`, `VstepOk`, `MsgsSendable`).
- Driver.Tool.WriteFiles: requires `0 <= devIdx < 4`, because the C indexes `handles_local` and `g_dev` without a check.
- Driver.Tool.WriteFiles: with no container, requires that no stale device is cached at `devIdx`, because the C would then read through a NULL `g_cont`.
- Driver.Tool.WriteFilesProf: requires `0 <= devIdx < 4` and `profIdx >= 0`, because the C indexes `g_profs` and `g_prof` with them unchecked.
- Driver.Tool.WriteFilesProf: with no container, requires that no stale device is cached at `devIdx`, because the C would then read through a NULL `g_cont`.
- Driver.SendSetMessage: requires the DSP buffer to fit the 453-byte stack buffer, because a larger message overflows it in C.
- PatchReceiver.ChooseRoundTrip, PatchReceiver.ScanRoundTrip, Driver.PayloadCarries: assume the scan reached the last word, which `PartialReachesEnd` proves below 4576 words, so for every message a DSP buffer holds. From 4576 words on the scan can stop at `len - 3` before a late changed word while the trimmed encoding is still shorter (a forced empty block after 255 unchanged words is dropped by the trim), and the code then sends a partial update that loses that change; this is not modelled as a finding because such messages exceed the DSP buffer.
- Driver.OneMessage, Driver.OneMessageCarriesData, Driver.MessageByTrim, Driver.DecisionByTrim, Driver.Decide, Driver.Encode, Driver.Prepare, Driver.WriteOne: follow the corrected no-change decision (`PartialUpdate.ChooseCorrected`, see Findings). For a changed message of at most 2 data words with the partial update on, they send the whole message, where the code (CntToArray.c:1142-1143, 1171-1174) sends nothing; `PartialUpdate.ShortChangeDropped` states the code's behaviour. From 3 data words on they are the code's decision, and the writers never turn the partial update on.
- Container.ContainerCache.LoadCnt: requires at most 4 devices and at most 16 profiles per device, because `cont_get_devs` (CntToArray.c:1540-1555) writes past `g_dev` and `g_prof` beyond them.
- Transport.Dsp.DspMsg: does not model the 32-bit word count printed with each command. It requires `size` to be non-negative and the message to fit `g_out32buf`.
- Dafny's integers are unbounded. Widths are modelled only where they matter: the `unsigned short` step, the `uint8_t` `cmd_count`, 24-bit sign extension and the 16-bit mask.

## Findings

| source | as written | input that shows it | evidently intended | confidence | as-written member | corrected member |
|---|---|---|---|---|---|---|
| CntToArray.c:1142-1174 | the scan loop runs only while `p < partial + len - 3`; `p` starts 3 bytes in, so for a message of at most 2 data words the loop never runs, `trim == partial`, and the changed message is discarded as "No Change" | old data `00 00 00`, new data `01 00 00`, one data word (message length 2), with the partial update enabled | a changed message is always sent, at least as a full update | not executed; reachable only when the partial update is enabled, which this tool's writer never does | PartialUpdate.ShortChangeDropped | PartialUpdate.ChooseCorrected |
