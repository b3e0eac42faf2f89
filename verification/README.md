# GRUB Legacy for EFI: verified core algorithms

This project models, in Dafny, the parts of GRUB Legacy for EFI that are
algorithms and state machines rather than firmware calls or port I/O, and proves
what they are relied on for:

- **`lib/getopt.c`** (`GetoptSpec.dfy`, `Getopt.dfy`, `GetoptUsage.dfy`): the scanner
  that permutes argv while it reads it. Over a whole run the options come out in the
  order of the original command line, each with the code and the argument that were
  meant, and argv ends up stably partitioned.
- **`netboot/fsys_tftp.c`** (`TftpPeer.dfy`, `TftpLog.dfy`, `TftpWindow.dfy`,
  `TftpSchedule.dfy`, `Tftp.dfy`): the TFTP client and its sliding read window,
  against any conforming server (RFC 1350, RFC 2347, RFC 2348, RFC 2349) and a
  network that loses, repeats and reorders packets.
- **`efi/efimm.c`** (`E820Spec.dfy`, `E820.dfy`, `Pages.dfy`): EFI memory map to
  E820 table, and the bounded table of page allocations.
- **`netboot/ns8390.c`** (`ReceiveRing.dfy`): the receive ring of the 8390 chips
  refines a bounded queue of frames.
- **`efi/efidp.c`, `efi/efidisk.c`** (`DevicePath.dfy`, `DeviceList.dfy`): order,
  copy and truncation of device paths, and the ordered list of disks.
- **`efi/graphics.c`** (`Console.dfy`): the text console as an 80x30 terminal.
- **`efi/efimisc.c`** (`PathName.dfy`, `Utf.dfy`): in-place path normalising and
  the UTF-8/UTF-16 converters.
- **`netboot/misc.c`, `netboot/depca.c`** (`Inet.dfy`, `Signature.dfy`): dotted
  addresses printed and read, and the PROM signature search.

`Wrappers.dfy`, `Numbers.dfy` and `Sequences.dfy` hold what several modules share.

Code that updates variables, buffers or linked nodes is modelled by methods and
classes that do the same steps; each is specified by a function of the old state,
and the theorems are about those functions. Integers are unbounded in Dafny:
16-bit block numbers, 64-bit addresses, bytes and character cells are bounded or
reduced explicitly. A server, a network, the firmware's allocator and the network
chip are modelled by objects that follow an arbitrary script.

## What the proofs show about the code

Where a natural expectation is not met by the code, the code is modelled as it is,
the failure is shown at an input, and the exact condition is proved:

- A TFTP transfer accepts at most 65535 blocks, since the comparison of
  netboot/fsys_tftp.c:211 is made without 16-bit wrap-around. Not even the bytes of
  the first 65535 blocks can always be read: the window is filled as far as there is
  room, and a fill that would take block 65536 fails as a whole. The first read of a
  file succeeds without a failure of the network only if the blocks the window takes
  for it (`TftpWindow.FirstNeed`) are at most 65535 (`Tftp.ReadFirst`, on every
  network), and also then on a network that is on schedule (`Tftp.ReadOnSchedule`). That holds for every read of a file of
  less than 65535 blocks and for every read that ends a buffer before them, and for
  none that ends behind them (`TftpWindow.FirstNeedBounds`). The last byte of block
  65535 is out of reach with 512-byte blocks and the buffer of 0x8000 bytes
  (`TftpWindow.LimitIsNotReached`); the last byte of a file of 65535 * 1432 + 1 bytes
  is for every block size (`TftpWindow.LastByteOutOfReach`). A read behind a backward
  seek takes as many blocks as the first read of the file, and is subject to the same
  condition (`Tftp.Client.Read`). A file whose size is not told in time can only be
  opened if it ends within 65535 blocks of the size used when it is measured
  (`Tftp.Client.Dir`).
- `tftp_dir` finds twice the size if and only if the size is told behind a stray packet
  (one that is neither data, option acknowledgement nor error) and before any data,
  and not told again when the file is requested once more (`Tftp.Client.Dir`). A file
  of three bytes is found to have six (`Tftp.SixForThree`).
- A TFTP client bears up to 20 silences before the option acknowledgement (before the
  first block, if there are no options), none between the option acknowledgement and the
  first block, and 9 before any later block. A single silence behind the option
  acknowledgement ends the transfer for good: `tp` then holds the ACK of block 0, but it
  is `! block` that decides (netboot/fsys_tftp.c:73-83), so that this ACK goes to the
  request port from a new port, and what the server sends to the old one no longer
  arrives. Whatever the network does later, nothing can be read any more, and without
  stray packets the file is not found (`Tftp.Client.BufFill`, `Tftp.Client.Dir` and
  `Tftp.OpenAndRead`, as a condition on what the client sees: an agreeable option
  acknowledgement, then a silence, and no data before it). `Tftp.LostBehindOack` is the
  witness for every file and every further course, `Tftp.NotFoundForOneSilence` for three
  bytes that the server offers twice more. At the 21st silence before any answer and at
  the 10th before a later block the client gives up (`Tftp.LostWithoutAnswer`,
  `Tftp.Client.BufFill`). So on a network with any number of silences before each packet
  the first read of a file is served if and only if there are at most 20 before the first
  answer, none behind the option acknowledgement, at most 9 before each later block that
  the read takes, and these are at most 65535 (`Tftp.ReadOnSchedule`). With any repeated
  and reordered packets besides, every read inside the file succeeds as long as no more
  silences come than that (`Tftp.OpenAndRead`, subject to the limit above: a client that is
  stuck at block 65535 ends in silence).
- `fix_path_name` ends inside its buffer exactly for the paths with no backslash after
  the first character and for those in which the first such backslash stands behind a
  separator or a "." component (`PathName.EndsIffSuitable`). It does not end for
  `\a\b` (`PathName.SingleBackslashes`).
- `find_parent_device_path` keeps the length of the node it turns into the end node, so
  its result is a proper path exactly if that node had no contents
  (`DevicePath.ParentIsProperIff`); a node of twelve bytes is the witness
  (`DevicePath.ParentOfTwelveBytes`). It also goes on with the copy without looking
  whether there was memory for it.
- `iterate_child_devices` finds children only of a device whose path ends in the plain
  end node (`DeviceList.IsChildIff`); an end node of type 0xff is the witness
  (`DeviceList.ChildNotFound`).
- `grub_utf16_to_utf8` writes UTF-8 for a unit that is no surrogate exactly if the unit
  is at most 0x7FF (`Utf.UnitBytesIff`); the euro sign is the witness
  (`Utf.EuroSign`).
- `ns8390_poll` never takes an unacceptable frame off the ring, so that from such a frame
  on nothing is received any more (`ReceiveRing.BlockedForGood`, and
  `ReceiveRing.BlockedByLongFrame` for a frame of 1515 bytes). After enough polls all
  frames stored have been passed on if and only if all of them are acceptable
  (`ReceiveRing.AllPassedOnIff`).
- For ascending non-empty regions a full E820 table keeps exactly the first entries, and
  it is exact if and only if the merged regions fit (`E820Spec.ExactIffItFits`). For
  regions in any other order a full table can still grow at its last entry.
- Pages that the firmware has handed out are lost exactly when all slots of the table are
  taken (or, for `grub_efi_allocate_anypages`, when they lie at address 0): the caller
  gets a null pointer, and nobody gives them back (`Pages.PageTable.AllocatePages`,
  `Pages.PageTable.AllocateAnyPages`).
- The comment on `tftp_read` (netboot/fsys_tftp.c:317) speaks of up to SIZE bytes; the
  code reports an error when it cannot deliver all of them, and the model follows the
  code.
- A line feed keeps the column, except on the bottom line, where scrolling sets it to
  zero (`Console.Graphics.Putchar`).

## Model

| member | source | states |
|---|---|---|
| GetoptSpec.IndexOf | grub_legacy_efi/lib/getopt.c:649-650 | the position found is the first occurrence, or the end if there is none |
| GetoptSpec.FirstExact | grub_legacy_efi/lib/getopt.c:654-665 | the result is the first option of exactly that name, or the end |
| GetoptSpec.FirstAbbreviated | grub_legacy_efi/lib/getopt.c:654-671 | the result is the first option whose name begins so, or the end |
| GetoptSpec.ResolveMeetsItsMeaning | grub_legacy_efi/lib/getopt.c:649-688 | for distinct names the lookup gives the exact match if any, else the unique abbreviation, else ambiguous or unknown, all said of the set of options alone |
| GetoptSpec.MeaningIsUnique | grub_legacy_efi/lib/getopt.c:649-688 | that meaning determines the outcome |
| GetoptSpec.TableOrderIsIrrelevant | grub_legacy_efi/lib/getopt.c:649-688 | two tables with the same options in different orders resolve every name alike |
| GetoptSpec.DecodeShort | grub_legacy_efi/lib/getopt.c:770-966 | every short option uses up text, and the next element is taken only at the end of this one (what it reports is stated by GetoptUsage.LetterIsDecoded and GetoptUsage.LastIsDecoded) |
| GetoptSpec.DecodeLong | grub_legacy_efi/lib/getopt.c:637-768 | a long option uses up its whole element, and takes the next one only if there is one (what it reports is stated by GetoptUsage.LongIsDecoded) |
| GetoptSpec.ReadConserves | grub_legacy_efi/lib/getopt.c:171-185 | options and operands of a reading are together exactly the arguments, as a multiset |
| GetoptSpec.ReadSkips | grub_legacy_efi/lib/getopt.c:566-571 | a block of non-options in front joins the operands, in order, and changes nothing else |
| GetoptSpec.ReadPartitions | grub_legacy_efi/lib/getopt.c:171-185 | every reading is a stable partition: there are marks, justified by option syntax, by an option right before, or by `--`, such that the two lists are the marked and the unmarked elements in their original order |
| GetoptSpec.ReadFromPartitions | grub_legacy_efi/lib/getopt.c:515-602 | the same when scanning goes on inside a cluster of short options |
| Getopt.FindLong | grub_legacy_efi/lib/getopt.c:654-675 | the loop with its exact and ambiguous flags computes the lookup above |
| Getopt.SwapBlocks | grub_legacy_efi/lib/getopt.c:352-358 | two blocks of equal length change places and nothing else moves |
| Getopt.BottomMoved | grub_legacy_efi/lib/getopt.c:345-361 | after the shorter bottom block has been swapped to the far end, exchanging what remains completes the exchange |
| Getopt.TopMoved | grub_legacy_efi/lib/getopt.c:362-378 | the same for a shorter top block |
| Getopt.ExchangeBlocks | grub_legacy_efi/lib/getopt.c:343-379 | for every pair of lengths the loop ends with the two adjacent blocks in the other order, each in its own order, and the rest untouched |
| Getopt.RemainingAfterDecode | grub_legacy_efi/lib/getopt.c:622-967 | decoding takes exactly the first event off the reading to come and the elements it passes off the options to come |
| Getopt.DecodeStep | grub_legacy_efi/lib/getopt.c:622-967 | a decoded option changes nothing in the reading of the whole list except that its event is no longer to come, and strictly less is unscanned |
| Getopt.ClampKeepsWhole | grub_legacy_efi/lib/getopt.c:549-554 | pulling the block of non-options back to optind keeps the reading |
| Getopt.SettleKeepsWhole | grub_legacy_efi/lib/getopt.c:556-564 | moving the new options in front of the skipped non-options keeps the reading of the whole list |
| Getopt.SkipKeepsWhole | grub_legacy_efi/lib/getopt.c:566-571 | skipping further non-options keeps the reading |
| Getopt.DoubleDash | grub_legacy_efi/lib/getopt.c:574-590 | after `--` nothing is left to report and argv is program name, options, operands |
| Getopt.EndOfList | grub_legacy_efi/lib/getopt.c:592-602 | the same at the end of the list, with the place where the operands begin |
| Getopt.OpenElement | grub_legacy_efi/lib/getopt.c:615-620 | starting on an option element keeps the reading and makes progress |
| Getopt.Scanner.Exchange | grub_legacy_efi/lib/getopt.c:307-385 | argv is exchanged at the recorded blocks, and first_nonopt and last_nonopt delimit the moved non-options |
| Getopt.Scanner.Initialize | grub_legacy_efi/lib/getopt.c:393-423 | the block of non-options is empty and no element is open |
| Getopt.Scanner.Start | grub_legacy_efi/lib/getopt.c:525-531 | the first call starts the scan at optind wherever the caller has put it, or at 1 |
| Getopt.Scanner.Clamp | grub_legacy_efi/lib/getopt.c:549-554 | after a caller has moved optind back the block of non-options has rational bounds and the reading is kept |
| Getopt.Scanner.DecodeName | grub_legacy_efi/lib/getopt.c:637-768 | the new optind, nextchar and event are those of the long option, or nothing changes |
| Getopt.Scanner.DecodeLetter | grub_legacy_efi/lib/getopt.c:770-966 | the same for a short option |
| Getopt.Scanner.SkipOperands | grub_legacy_efi/lib/getopt.c:556-571 | the reading of the whole list is kept and optind is at an option, at `--` or at the end |
| Getopt.Scanner.AdvanceElement | grub_legacy_efi/lib/getopt.c:545-620 | either argv is finally partitioned and optind is at the operands, or an element is open, the reading is kept and less is unscanned |
| Getopt.Scanner.Getopt | grub_legacy_efi/lib/getopt.c:515-967 | a call that reports an option reports exactly the next event of the reading and leaves strictly less unscanned; a call that returns -1 leaves argv partitioned and optind at the first operand |
| Getopt.ReadingPermutes | grub_legacy_efi/lib/getopt.c:171-185 | program name, options and operands together are a permutation of the command line |
| Getopt.ParseCommandLine | grub_legacy_efi/grub/main.c:148-151 | any complete run ends; the events are those of the ORIGINAL command line in order, argv is the program name, then the options with their arguments, then the operands from optind on, and argv is a permutation of what it was |
| GetoptUsage.NameIsFound | grub_legacy_efi/lib/getopt.c:649-675 | a full name finds the first option of that name, and an abbreviation the only option it abbreviates |
| GetoptUsage.NamelessIsNotFound | grub_legacy_efi/lib/getopt.c:677-688 | a name that is no option's and abbreviates none or several finds none |
| GetoptUsage.LetterIsFound | grub_legacy_efi/lib/getopt.c:772-803 | a letter is looked up at its first place in the option string, and the colons behind it tell whether it takes an argument |
| GetoptUsage.LongIsDecoded | grub_legacy_efi/lib/getopt.c:692-750 | a long option with `=value`, with the next element or without an argument reports its value (or 0, and stores it, if it has a flag), that argument and its index; an unwanted argument reports `?`, a missing one `?` or `:`, with the value in optopt |
| GetoptUsage.NoNameIsDecoded | grub_legacy_efi/lib/getopt.c:677-768 | an unknown or ambiguous name reports `?` with optopt 0 |
| GetoptUsage.LetterIsDecoded | grub_legacy_efi/lib/getopt.c:772-803 | a letter without argument reports itself, an undeclared one `?` with itself in optopt |
| GetoptUsage.LastIsDecoded | grub_legacy_efi/lib/getopt.c:904-965 | a letter with an argument reports itself and the rest of the element or the next element; one that lacks a required argument `?` or `:` with itself in optopt |
| GetoptUsage.ReadsLong | grub_legacy_efi/lib/getopt.c:622-768 | so is read an element with a long option in front of any other elements |
| GetoptUsage.ReadsLetters | grub_legacy_efi/lib/getopt.c:770-966 | so is read a cluster of letters, one after the other |
| GetoptUsage.ReadsAsMeant | grub_legacy_efi/lib/getopt.c:515-967 | every command line, spelled out from options in any of their forms, operands anywhere and operands of any form behind `--`, is read as exactly those options with their arguments and those operands |
| GetoptUsage.ParseAsMeant | grub_legacy_efi/grub/main.c:148-151 | a whole run on such a command line reports them, and leaves argv with the options in front of the operands |
| GetoptUsage.GrubHelp | grub_legacy_efi/grub/main.c:70-90 | with the table of the grub shell `--help` reports -2 |
| TftpPeer.Peer.Request | grub_legacy_efi/netboot/fsys_tftp.c:273-298 | a request opens a transfer on a fresh port with no ACK sent and at most one block on its way, and any other packet sent there opens none; a server that is ready answers it; requests are recorded with the block size of the transfer they leave |
| TftpPeer.AdvancedIsGood | grub_legacy_efi/netboot/fsys_tftp.c:215-224 | a lock-step server that acts on an acknowledgement by its 16-bit number never gets more than one block ahead of a client whose ACKs do not exceed what it accepted |
| TftpPeer.OptionsAgreed | grub_legacy_efi/netboot/fsys_tftp.c:133-185 | a block size of at least 512 and a size of at least 0 are agreed to, nothing less and no other option |
| TftpPeer.UpcomingIsSent | grub_legacy_efi/netboot/fsys_tftp.c:68-68 | whatever the network does next, in any order and any number of times, only packets the server has sent in this transfer arrive |
| TftpPeer.UpcomingWithoutTransfer | grub_legacy_efi/netboot/fsys_tftp.c:68-83 | without a transfer bound to the client's port neither data nor an option acknowledgement ever arrives, whatever the network does |
| TftpPeer.UpcomingWithoutStrays | grub_legacy_efi/netboot/fsys_tftp.c:68-68 | a stray packet arrives only if the network has one |
| TftpPeer.Peer.Await | grub_legacy_efi/netboot/fsys_tftp.c:62-71 | what arrives is recorded; a failure is a packet that is neither data nor an agreeable option acknowledgement, an interruption, or more silence than the client bears: 20 times before it has acknowledged anything, not once between that and the first block, 9 times afterwards |
| TftpPeer.TheBlock | grub_legacy_efi/netboot/fsys_tftp.c:205-213 | in step with the server, data of the next number can only be the next block, although numbers repeat after 65536 |
| Tftp.Client.ProcessOack | grub_legacy_efi/netboot/fsys_tftp.c:128-188 | an option acknowledgement is accepted if and only if it holds nothing but a block size of at least 512 and a size; that leaves the client at the server's block size, and the size known is the file's if it was told |
| Tftp.Client.SendRrq | grub_legacy_efi/netboot/fsys_tftp.c:258-299 | the window is empty at the beginning of the file |
| Tftp.Client.HandleSilence | grub_legacy_efi/netboot/fsys_tftp.c:68-101 | goes on waiting if and only if the silences since the last block are at most 20 before the first one and 9 afterwards, as numbers, and the request can be sent; what is sent is the request, which is served again, or the ACK; but with an ACK to repeat before the first block the transfer is left behind, and stays so |
| Tftp.Client.NextBlock | grub_legacy_efi/netboot/fsys_tftp.c:205-213 | a packet that carries the next number is the next block of the file, for any history of duplicates and reordering |
| Tftp.Client.Accept | grub_legacy_efi/netboot/fsys_tftp.c:237-251 | prevblock and bcounter move on together and the payload joins the buffer |
| Tftp.Client.TakeBlock | grub_legacy_efi/netboot/fsys_tftp.c:222-251 | the one packet sent is the ACK of the block accepted, the buffer is still the last bytes received of the file, and the end of the file is noticed at its last block |
| Tftp.Client.SendAck | grub_legacy_efi/netboot/fsys_tftp.c:211-235 | the one packet sent is the ACK of the last block accepted |
| Tftp.Client.Acknowledge | grub_legacy_efi/netboot/fsys_tftp.c:211-251 | exactly the expected block is accepted; the ACK sent names the number of blocks accepted, which never decreases |
| Tftp.Client.DataAtAgreedSize | grub_legacy_efi/netboot/fsys_tftp.c:187-203 | data can only arrive when the client works at the server's block size |
| Tftp.Client.HandleOack | grub_legacy_efi/netboot/fsys_tftp.c:112-188 | ignored behind the first block, refused if and only if it is not agreeable; the bytes received stay, and the size is known if it was told |
| Tftp.Client.HandlePacket | grub_legacy_efi/netboot/fsys_tftp.c:103-251 | every packet keeps the invariant: bcounter equals prevblock, below 65536, ACKs ascend, the buffer is a part of the file, retry counts the silences; a data packet is accepted if and only if it has the next number; before the first block `tp` stops being the request exactly at an agreeable option acknowledgement |
| Tftp.Client.Receive | grub_legacy_efi/netboot/fsys_tftp.c:68-71 | waiting for a reply leaves the transfer as it is; a client that has left its transfer behind sees no data and no option acknowledgement |
| Tftp.Client.Respond | grub_legacy_efi/netboot/fsys_tftp.c:68-251 | the invariant, the accounts and the reasons of a failure for every kind of reply; a silence before the first block with the ACK to repeat leaves the transfer behind for good |
| Tftp.Client.Exchange | grub_legacy_efi/netboot/fsys_tftp.c:57-252 | one reply and the response to it: the accounts of blocks, size, agreement, failures and loss of the transfer go on |
| Tftp.Client.CourseKept | grub_legacy_efi/netboot/fsys_tftp.c:57-252 | on a network on schedule a bearable silence or the next packet keeps to the schedule, without a failure |
| Tftp.Client.LostOn | grub_legacy_efi/netboot/fsys_tftp.c:57-252 | a client that has left its transfer behind, or hears nothing for the 21st or the 10th time, accepts no further block on the way there |
| Tftp.Client.Progress | grub_legacy_efi/netboot/fsys_tftp.c:57-252 | on schedule there is more to come until the fill is complete or all blocks that the network delivers have been received |
| Tftp.Client.Turn | grub_legacy_efi/netboot/fsys_tftp.c:57-252 | one turn of the loop: the accounts go on, a stray packet ends the loop, a failure is one of the network; on a network on schedule a silence is borne or the next block is accepted; a client that will not get any further does not |
| Tftp.Client.BufFill | grub_legacy_efi/netboot/fsys_tftp.c:50-255 | for any trace the loop ends with the buffer a part of the file within its length; success means that the fill is complete or that a stray packet has ended it; the size is known exactly if it was told before any data; the transfer is lost once a silence has come between an agreeable option acknowledgement and the first data, and stays lost; on a network on schedule that delivers a number of blocks and then falls silent for ten waits, a fill succeeds if and only if it needs no more blocks than that |
| Tftp.Client.FilledUp | grub_legacy_efi/netboot/fsys_tftp.c:57-57 | a complete fill has received the blocks up to (start of the window + buffer) / block size, or the whole file |
| Tftp.Client.SlideHalf | grub_legacy_efi/netboot/fsys_tftp.c:375-382 | moving the upper half down keeps the buffer a window over the file |
| Tftp.Client.WindowBytes | grub_legacy_efi/netboot/fsys_tftp.c:359-369 | any part of the window is that part of the file |
| Tftp.Client.Consume | grub_legacy_efi/netboot/fsys_tftp.c:357-389 | exactly as many of the file's bytes at filepos are copied as the window holds and the caller wants, and the window slides by half a buffer or is given up |
| Tftp.Client.ReadTurn | grub_legacy_efi/netboot/fsys_tftp.c:357-404 | one turn of the read loop does not change the number of blocks the read takes, and the first one of a new transfer makes it that of a first read; it fails only with the network or behind the end of the file, and always once the transfer has been left behind |
| Tftp.Client.EmptyFill | grub_legacy_efi/netboot/fsys_tftp.c:398-403 | an empty buffer after an undisturbed fill means the end of the file |
| Tftp.Client.Reopen | grub_legacy_efi/netboot/fsys_tftp.c:328-355 | after a backward seek the window is in order at the beginning of the file; from the end of the file it takes one request, and a server that serves the file again is then on schedule |
| Tftp.Client.Read | grub_legacy_efi/netboot/fsys_tftp.c:318-407 | either exactly file[filepos..filepos+size) and filepos advanced by size, or an error, and an error means that the network has failed during this call or that the request reaches beyond the end; nothing behind 65535 blocks is delivered; without a failure a read succeeds only if the window gets by with 65535 blocks, counted from the window or, behind a backward seek, from the beginning of the file; on a network on schedule that falls silent behind a number of blocks it succeeds if and only if it takes no more; nothing is read once the transfer has been left behind |
| Tftp.Client.CountSize | grub_legacy_efi/netboot/fsys_tftp.c:455-482 | the size counted is the file's, plus once more the file's if the size is told meanwhile before any data; it takes a file that ends within 65535 blocks of this transfer's block size, and no silence between option acknowledgement and data |
| Tftp.Client.Dir | grub_legacy_efi/netboot/fsys_tftp.c:411-485 | on success the file is open at its beginning; the size found is twice the file's if and only if (for a file that is not empty) it was told late and not told again, and the file's otherwise; if it was not told in time the file is requested twice and ends within 65535 blocks of the block size in which it was measured; a silence between an agreeable option acknowledgement and data means that the transfer is lost, and without stray packets that the file is not opened; a failure is one of the network |
| TftpLog.ToldWhileMeasuring | grub_legacy_efi/netboot/fsys_tftp.c:455-482 | what is told while the file is measured is told behind a stray packet and before any data, and nothing else is |
| TftpLog.ToldInTime | grub_legacy_efi/netboot/fsys_tftp.c:448-455 | what is told during the first fill is told in time |
| TftpLog.StrandedConcat | grub_legacy_efi/netboot/fsys_tftp.c:68-101 | a silence strands the client in a longer view if and only if it does in its first part, or there is no data in the first part and it does in the second, with what has been agreed to before |
| Tftp.Client.Close | grub_legacy_efi/netboot/fsys_tftp.c:488-497 | closing keeps file position and error number |
| Tftp.ReadMany | grub_legacy_efi/netboot/fsys_tftp.c:318-407 | any sequence of reads at any positions: every read that succeeds delivers exactly the bytes asked for, none behind 65535 blocks, and while the network does not fail every read inside the file succeeds; once the transfer has been left behind no read succeeds any more |
| Tftp.OpenAndRead | grub_legacy_efi/netboot/fsys_tftp.c:318-485 | opening and reading from the first request on, against any file and any script: without a failure of the network, which includes a silence behind the option acknowledgement, the size is the file's and every read inside the file succeeds; with failures no byte delivered is wrong; nothing behind 65535 blocks is delivered; behind that silence nothing is read, and without stray packets the file is not found |
| Tftp.LostBehindOack | grub_legacy_efi/netboot/fsys_tftp.c:68-101 | for every file and block size, a silence behind the option acknowledgement, after up to 20 before it, means not found, whatever comes later (stray packets apart) |
| Tftp.LostWithoutAnswer | grub_legacy_efi/netboot/fsys_tftp.c:73-101 | so does the 21st silence before any answer, whatever comes later |
| Tftp.NotFoundForOneSilence | grub_legacy_efi/netboot/fsys_tftp.c:68-101 | three bytes that the server offers twice more are not found |
| Tftp.ReadFirst | grub_legacy_efi/netboot/fsys_tftp.c:318-485 | the first read of a file, on any network that does not fail: it is served only if it takes at most 65535 blocks |
| Tftp.ReadByPlan | grub_legacy_efi/netboot/fsys_tftp.c:318-485 | the first read of a file on a network that delivers a number of blocks on schedule and then falls silent: it is served if and only if it takes no more blocks |
| Tftp.ReadOnSchedule | grub_legacy_efi/netboot/fsys_tftp.c:318-485 | the first read of a file on a network with any number of silences before each packet: it is served if and only if it takes at most 65535 blocks, there are at most 20 silences before the first answer, none behind the option acknowledgement and at most 9 before each later block it takes; and then without a failure |
| Tftp.MisledAboutSize | grub_legacy_efi/netboot/fsys_tftp.c:411-485 | for every file of less than 512 bytes there is a network on which twice its size is found |
| Tftp.SixForThree | grub_legacy_efi/netboot/fsys_tftp.c:411-485 | three bytes are found to be six |
| TftpWindow.NeedCovers | grub_legacy_efi/netboot/fsys_tftp.c:357-404 | a read takes at least the blocks its bytes are in |
| TftpWindow.NeedIsModest | grub_legacy_efi/netboot/fsys_tftp.c:375-389 | it takes at most a buffer beyond them, and none behind the end of the file |
| TftpWindow.NeedOn | grub_legacy_efi/netboot/fsys_tftp.c:357-389 | copying, sliding and skipping do not change the blocks a read takes |
| TftpWindow.FirstNeedBounds | grub_legacy_efi/netboot/fsys_tftp.c:211-213 | every read of a file within 65535 blocks, and every read that ends a buffer before them, is within the limit; none that ends behind them is |
| TftpWindow.LimitIsNotReached | grub_legacy_efi/netboot/fsys_tftp.c:211-213 | the last byte of block 65535 cannot be the first one read, with blocks of 512 bytes and a buffer of 0x8000 |
| TftpWindow.LastByteOutOfReach | grub_legacy_efi/netboot/fsys_tftp.c:211-213 | the last byte of a file of 65535 * 1432 + 1 bytes cannot be read at any block size |
| TftpSchedule.ScheduleDelivers | grub_legacy_efi/netboot/fsys_tftp.c:189-224 | on schedule the option acknowledgement comes first and then each block behind the ACK of the one before, each behind its silences |
| TftpSchedule.ScheduleContinues | grub_legacy_efi/netboot/fsys_tftp.c:215-224 | and an acknowledged packet keeps the schedule |
| TftpSchedule.ScheduleRetries | grub_legacy_efi/netboot/fsys_tftp.c:73-83 | a silence at which the request is repeated and served again keeps the schedule |
| TftpSchedule.ScheduleWaits | grub_legacy_efi/netboot/fsys_tftp.c:87-97 | so does one at which the ACK of the last block is repeated |
| TftpSchedule.TransferCut | grub_legacy_efi/netboot/fsys_tftp.c:87-97 | a transfer with more than nine silences before a block is one that ends before that block, with ten silent waits behind it |
| TftpSchedule.Effective | grub_legacy_efi/netboot/fsys_tftp.c:68-101 | a transfer with any number of silences is one without hope, or it delivers exactly the blocks before the first unbearable silence |
| TftpSchedule.NoHopeBegins | grub_legacy_efi/netboot/fsys_tftp.c:73-101 | where a client without hope begins |
| E820Spec.RegionsMean | grub_legacy_efi/efi/efimm.c:374-419 | the regions of a descriptor cover exactly the addresses that its type, looked up among all fourteen, grants, as memory of that kind, RAM outside 0xA0000 to 0x100000 |
| E820Spec.AllRegionsMean | grub_legacy_efi/efi/efimm.c:370-420 | the same for a whole memory map |
| E820Spec.ExtendMeans | grub_legacy_efi/efi/efimm.c:312-322 | merging a region into the last entry adds exactly its addresses |
| E820Spec.MergedMeans | grub_legacy_efi/efi/efimm.c:312-333 | merging without a limit keeps the addresses of every kind |
| E820Spec.BuildIsSound | grub_legacy_efi/efi/efimm.c:299-350 | a limited table holds at most its capacity and covers only what was added, with the same kinds |
| E820Spec.BuildIsMerged | grub_legacy_efi/efi/efimm.c:324-333 | it is the unlimited table if that fits |
| E820Spec.TableMeansMap | grub_legacy_efi/efi/efimm.c:355-421 | for any descriptors, in any order and overlapping, the table covers only what they grant, and exactly that if no region is dropped |
| E820Spec.OneDescriptor | grub_legacy_efi/efi/efimm.c:374-419 | for each type by name: which kind of memory its 4096-byte pages become, with the hole in RAM, and that an unknown type gives nothing |
| E820Spec.BuildIsCompact | grub_legacy_efi/efi/efimm.c:312-322 | no two consecutive entries abut with the same type |
| E820Spec.BuildIsAscending | grub_legacy_efi/efi/efimm.c:312-333 | ascending disjoint regions give an ascending disjoint table |
| E820Spec.CutIsFinal | grub_legacy_efi/efi/efimm.c:312-350 | once an entry has been dropped, no later region continues an entry before it |
| E820Spec.BuildIsPrefix | grub_legacy_efi/efi/efimm.c:324-350 | for ascending non-empty regions a full table is the beginning of the unlimited one |
| E820Spec.ExactIffItFits | grub_legacy_efi/efi/efimm.c:324-350 | for such regions nothing granted is missing if and only if the merged regions fit |
| E820Spec.AllRegionsAscend | grub_legacy_efi/efi/efimm.c:370-420 | a sorted memory map gives ascending regions |
| E820Spec.SortedMapGivesSortedTable | grub_legacy_efi/efi/efimm.c:355-421 | a sorted disjoint memory map becomes a sorted disjoint table with nothing left to merge, within the capacity, and complete if and only if the merged regions fit |
| E820.Table.AddMemoryRegion | grub_legacy_efi/efi/efimm.c:299-350 | the new table depends on the old table and the region alone, not on the hidden statics |
| E820.Table.AddRam | grub_legacy_efi/efi/efimm.c:397-412 | RAM goes in around the 640K-1M hole, behind what was added before |
| E820.Table.AddDescriptor | grub_legacy_efi/efi/efimm.c:374-419 | a descriptor adds exactly its regions behind what was added before |
| E820.Table.FromEfiMap | grub_legacy_efi/efi/efimm.c:355-421 | whatever the table and the statics held before, the result is the conversion of the memory map |
| E820.Table.GetMmapEntry | grub_legacy_efi/efi/efimm.c:477-501 | the entry at a continuation value and the next value, with 0 behind the last and for values out of range |
| E820.Table.Enumerate | grub_legacy_efi/efi/efimm.c:477-501 | following the continuation values from 0 gives every entry once, in order |
| E820.TellMemory | grub_legacy_efi/efi/efimm.c:355-501 | conversion and enumeration together: nothing is reported that was not granted, and everything that was if nothing is dropped |
| Pages.TrackOne | grub_legacy_efi/efi/efimm.c:103-109 | filling a free slot adds exactly that allocation and keeps the slots distinct |
| Pages.UntrackOne | grub_legacy_efi/efi/efimm.c:224-229 | clearing a slot removes exactly its allocation |
| Pages.PageTable.Track | grub_legacy_efi/efi/efimm.c:177-189 | an allocation is entered if and only if there is a free slot |
| Pages.PageTable.Untrack | grub_legacy_efi/efi/efimm.c:224-229 | exactly the allocation at the address is forgotten |
| Pages.PageTable.FreePages | grub_legacy_efi/efi/efimm.c:212-234 | the allocation, which must be in use with this page count, is forgotten and given back in one call to the firmware, and the accounts stay right |
| Pages.PageTable.Enter | grub_legacy_efi/efi/efimm.c:172-192 | an allocation is held by the table, or known to be outside of it, for lack of a free slot or because it is not to be tracked |
| Pages.PageTable.AllocateAnyPages | grub_legacy_efi/efi/efimm.c:83-120 | the result is the memory that the firmware hands out, or 0 if it hands out none or no slot is free; it is fresh and held by the table; memory handed out is lost exactly when no slot is free or it lies at address 0, and exactly that memory |
| Pages.PageTable.Obtain | grub_legacy_efi/efi/efimm.c:145-170 | what is obtained is the first answer's memory or, if that lies at address 0, the second's; memory at address 0 is given back, and never remains in use |
| Pages.PageTable.AllocatePages | grub_legacy_efi/efi/efimm.c:123-193 | addresses above 0x7fffffff are refused; otherwise the result is the memory that can be obtained, at the address if one was given, or 0 without a free slot for it; if none can be, 0, or for the run-time services and EFI_NOT_FOUND the address all the same; what is obtained is held by the table unless it is for the run-time services, and lost exactly when no slot is free |
| Pages.PageTable.Init | grub_legacy_efi/efi/efimm.c:503-518 | the table gets the memory that can be obtained, or there is none; it is empty, and its own memory is not entered in it |
| Pages.PageTable.FreeAllHeld | grub_legacy_efi/efi/efimm.c:527-534 | every allocation held is given back in exactly one call, with its page count |
| Pages.PageTable.Fini | grub_legacy_efi/efi/efimm.c:520-539 | every allocation held is given back exactly once and the table last; what was in use before stays |
| Pages.Perform | grub_legacy_efi/efi/efimm.c:83-235 | an operation gives its caller exactly what the firmware's answers and the free slots allow, and only what is lost by the rules above is lost |
| Pages.Lifetime | grub_legacy_efi/efi/efimm.c:83-539 | from init to fini, for any allocations and matching frees: it starts if and only if the first memory can be obtained; memory in use before stays in use, and besides it exactly what was lost; nothing is lost without run-time requests, with at most as many requests as slots and no memory at address 0; over the whole run nothing is given back that is not in use, nor with another page count |
| Pages.FullTable | grub_legacy_efi/efi/efimm.c:177-189 | a table without a free slot holds as many allocations as it has slots |
| ReceiveRing.LaidRebased | grub_legacy_efi/netboot/ns8390.c:449-455 | positions one turn around the ring are the same positions |
| ReceiveRing.LaidUndisturbed | grub_legacy_efi/netboot/ns8390.c:431-517 | writing outside the pages in use disturbs no unread frame |
| ReceiveRing.LaidExtended | grub_legacy_efi/netboot/ns8390.c:431-517 | a frame stored behind the last one extends the contiguous layout |
| ReceiveRing.WrittenIsStored | grub_legacy_efi/netboot/ns8390.c:479-500 | a frame written around the end of the ring is stored as a whole |
| ReceiveRing.WrittenLeavesQueue | grub_legacy_efi/netboot/ns8390.c:431-517 | writing into free pages leaves every unread frame as it was |
| ReceiveRing.ByteAt | grub_legacy_efi/netboot/ns8390.c:479-500 | where each byte of a frame is found, straight ahead or from the beginning of the ring on |
| ReceiveRing.Ring.constructor | grub_legacy_efi/netboot/ns8390.c:238-259 | the registers set at reset describe an empty ring |
| ReceiveRing.Ring.Receive | grub_legacy_efi/netboot/ns8390.c:431-517 | the chip's step: the frame is appended and the layout stays contiguous from BOUND+1 to CURR |
| ReceiveRing.Ring.CardRead | grub_legacy_efi/netboot/ns8390.c:108-146 | the bytes asked for are copied, also when 16-bit reads move one more |
| ReceiveRing.Ring.CopyFrame | grub_legacy_efi/netboot/ns8390.c:479-500 | the two parts of a frame at the end of the ring are joined byte for byte |
| ReceiveRing.Ring.EmptyIffMet | grub_legacy_efi/netboot/ns8390.c:449-455 | CURR equals the page behind BOUND exactly when no frame is unread |
| ReceiveRing.Ring.Taken | grub_legacy_efi/netboot/ns8390.c:512-515 | the new BOUND leaves the other unread frames laid out up to CURR |
| ReceiveRing.Ring.Poll | grub_legacy_efi/netboot/ns8390.c:431-517 | succeeds if and only if the first unread frame is acceptable, with odd status and 60 to 1514 bytes; then that frame is in the packet buffer byte for byte and off the ring, otherwise nothing changes |
| ReceiveRing.NothingIsLost | grub_legacy_efi/netboot/ns8390.c:431-517 | if the arrivals fit in the ring together, all of them are stored |
| ReceiveRing.StoredHasArrived | grub_legacy_efi/netboot/ns8390.c:431-517 | the frames stored are frames that arrived, in that order |
| ReceiveRing.BlockedForGood | grub_legacy_efi/netboot/ns8390.c:474-479 | behind an unacceptable frame nothing is received any more, whatever happens |
| ReceiveRing.GoodFramePasses | grub_legacy_efi/netboot/ns8390.c:474-517 | a frame with odd status and 60 to 1514 bytes is taken by the next poll |
| ReceiveRing.BadFrameBlocks | grub_legacy_efi/netboot/ns8390.c:474-479 | one with even status, or of fewer or more bytes, blocks the ring whatever follows |
| ReceiveRing.BlockedByLongFrame | grub_legacy_efi/netboot/ns8390.c:474-479 | a frame of 1515 bytes is one, for every ring of more than six pages and whatever follows |
| ReceiveRing.AllPassedOnIff | grub_legacy_efi/netboot/ns8390.c:431-517 | after as many polls as frames are waiting all frames stored have been passed on, if and only if all of them are acceptable |
| ReceiveRing.Run | grub_legacy_efi/netboot/ns8390.c:431-517 | every interleaving of arrivals and polls is that of a bounded queue: the packets passed on are the first frames stored, in order and byte for byte, and the others are waiting in the ring |
| ReceiveRing.RunOnce | grub_legacy_efi/netboot/ns8390.c:431-517 | one frame and a poll on an empty ring: its bytes are passed on if its status is odd and it has 60 to 1514 of them, and nothing otherwise |
| ReceiveRing.RunBlocked | grub_legacy_efi/netboot/ns8390.c:474-479 | behind a frame of the other kind no packet is passed on in any run |
| DevicePath.LexTransitive | grub_legacy_efi/efi/efidp.c:85-130 | the comparison of keys is transitive |
| DevicePath.PathKeyInjective | grub_legacy_efi/efi/efidp.c:85-130 | what the comparison looks at tells all paths apart |
| DevicePath.OrderIsTotal | grub_legacy_efi/efi/efidp.c:85-130 | the order is total: zero exactly for identical node sequences, antisymmetric and transitive |
| DevicePath.Memcmp | grub_legacy_efi/stage2/char_io.c:1173-1188 | zero means equal, otherwise the first different byte decides as a signed character |
| DevicePath.HeaderDecides | grub_legacy_efi/efi/efidp.c:100-116 | a higher type comes first, then a lower subtype, then a shorter node |
| DevicePath.ByteDecides | grub_legacy_efi/efi/efidp.c:118-120 | with equal headers the first different byte decides |
| DevicePath.OrderOfNodes | grub_legacy_efi/efi/efidp.c:100-120 | which of two nodes comes first, by their bytes: the higher type, the lower subtype, the shorter node, and then the lower byte, where those from 0x80 on come before the others |
| DevicePath.HighByteFirst | grub_legacy_efi/stage2/char_io.c:1173-1188 | 0x80 comes before 0x01 |
| DevicePath.CompareNodes | grub_legacy_efi/efi/efidp.c:100-120 | the sign of one comparison is that of the order of the whole paths, whatever follows |
| DevicePath.CompareDevicePaths | grub_legacy_efi/efi/efidp.c:85-130 | for well-formed paths anywhere in memory the sign of the result is that of the total order; a missing path compares as 1 |
| DevicePath.NextNode | grub_legacy_efi/efi/efidp.c:61-63 | stepping over a node drops exactly the first node |
| DevicePath.LastOffsetIsLast | grub_legacy_efi/efi/efidp.c:52-67 | the place found holds the last node and the end node |
| DevicePath.FindLast | grub_legacy_efi/efi/efidp.c:52-67 | null exactly for a path that is only an end node, otherwise that place |
| DevicePath.PathMoved | grub_legacy_efi/efi/efidp.c:44-49 | the same bytes elsewhere are the same path |
| DevicePath.Duplicate | grub_legacy_efi/efi/efidp.c:28-50 | a fresh buffer with the same node sequence |
| DevicePath.PathCut | grub_legacy_efi/efi/efidp.c:69-82 | overwriting the last node by an end node gives the nodes in front of it and that end node |
| DevicePath.FindParent | grub_legacy_efi/efi/efidp.c:69-82 | given memory for the copy, which the code takes for granted, the result has the nodes in front of the last one, and an end node as long as that one |
| DevicePath.ParentIsProperIff | grub_legacy_efi/efi/efidp.c:69-82 | it is the parent's path with a plain end node if and only if the last node is four bytes long |
| DevicePath.EndNodeIs | grub_legacy_efi/efi/grub/efi/api.h:295-309 | the end node is 7f ff 04 00, and a path ends at type 0x7f or 0xff with subtype 0xff |
| DevicePath.ParentOfTwelveBytes | grub_legacy_efi/efi/efidp.c:69-82 | a path of one node of twelve bytes does not get a proper end |
| DevicePath.CutLast | grub_legacy_efi/efi/efidisk.c:128-132 | overwriting the whole header gives the parent's nodes and the plain end node |
| DeviceList.EarlierIsTotal | grub_legacy_efi/efi/efidisk.c:156-166 | ordering by last node and then by whole path is a strict total order |
| DeviceList.CompareDevices | grub_legacy_efi/efi/efidisk.c:156-166 | the two comparisons give that order, and zero exactly for the same path |
| DeviceList.IsChildIff | grub_legacy_efi/efi/efidisk.c:124-134 | a device is a child if and only if its path is the parent's plus one node and the parent's end node is the plain one |
| DeviceList.ChildNotFound | grub_legacy_efi/efi/efidisk.c:124-134 | a device with the parent's nodes and one more is not found if the parent's path ends in a node of type 0xff |
| DeviceList.CheckChild | grub_legacy_efi/efi/efidisk.c:124-134 | duplicating, cutting and comparing decides exactly that, if there is memory for the copy |
| DeviceList.InsertAscends | grub_legacy_efi/efi/efidisk.c:148-176 | inserting at the place found keeps the list strictly ascending |
| DeviceList.List.Locate | grub_legacy_efi/efi/efidisk.c:154-167 | the place found has only earlier devices before it and none from there on, and a path is recognised if and only if the list holds it |
| DeviceList.List.Insert | grub_legacy_efi/efi/efidisk.c:169-175 | the new link stands at that place in the chain and the other links are as they were |
| DeviceList.List.AddDevice | grub_legacy_efi/efi/efidisk.c:148-176 | a known path changes nothing; a new one is inserted, and the list stays strictly ascending and properly linked |
| DeviceList.List.GetDevice | grub_legacy_efi/efi/efidisk.c:244-256 | the device at that position, or none for a number out of range |
| DeviceList.List.IterateChildren | grub_legacy_efi/efi/efidisk.c:113-145 | the hook is offered exactly the children in list order, up to and including the first it accepts, and no more behind a path that cannot be copied for lack of memory |
| DeviceList.AddAll | grub_legacy_efi/efi/efidisk.c:148-176 | any sequence of additions gives a strictly ascending list that holds every path added and nothing else |
| Console.PutIsProper | grub_legacy_efi/efi/graphics.c:330-383 | every character keeps the cursor in range and every cell without the cursor bit |
| Console.PutAll | grub_legacy_efi/efi/graphics.c:330-383 | so does any text |
| Console.Characters | grub_legacy_efi/efi/graphics.c:351-368 | 0x0a goes down, 0x0d to the beginning of the line, and any other byte is written at the cursor, with 0x100 if highlighted |
| Console.WindowMoves | grub_legacy_efi/efi/graphics.c:330-383 | one more character, whatever it is, moves the window over the sheet: line wrapping, line feeds, carriage returns and scrolling |
| Console.EveryTextIsAWindow | grub_legacy_efi/efi/graphics.c:330-383 | any text, however long and with any control characters, is shown as a window over one endless sheet of 80 columns, on which a character is written at the current line and column |
| Console.PlainTextIsTyped | grub_legacy_efi/efi/graphics.c:362-380 | without control characters that sheet holds the text one character after the other |
| Console.PrintingIsAWindow | grub_legacy_efi/efi/graphics.c:330-383 | any text without control characters, however long, is shown as a window over its characters in lines of 80 |
| Console.Graphics.constructor | grub_legacy_efi/efi/graphics.c:207-231 | the buffer is blank |
| Console.Graphics.Cursor | grub_legacy_efi/efi/efigraph.c:659-686 | the cursor bit is gone when the cell has been drawn |
| Console.Graphics.WriteCell | grub_legacy_efi/efi/graphics.c:364-368 | exactly the cell at the cursor changes, to the character in the current attribute |
| Console.Graphics.PutGlyph | grub_legacy_efi/efi/graphics.c:362-382 | refines the terminal for a printing character |
| Console.Graphics.Putchar | grub_legacy_efi/efi/graphics.c:330-383 | refines the terminal for every character, and ends by the scroll flag |
| Console.Graphics.MoveLinesUp | grub_legacy_efi/efi/graphics.c:464-471 | every line but the bottom one becomes the line below it |
| Console.Graphics.Scroll | grub_legacy_efi/efi/graphics.c:442-481 | exactly one line up with a blank bottom line in the current attribute, through 80 calls of putchar; nothing while it is running already |
| Console.Print | grub_legacy_efi/efi/graphics.c:330-383 | any character sequence through putchar is that sequence on the terminal |
| Console.FirstCell | grub_legacy_efi/efi/graphics.c:362-368 | a character under colour 0x07 is written plain, and under 0x70 highlighted |
| PathName.MiddleAllStep | grub_legacy_efi/efi/efimisc.c:435-437 | inside a component one character is copied |
| PathName.CleanAllStep | grub_legacy_efi/efi/efimisc.c:423-437 | so is the first character of a component that is kept |
| PathName.CleanAllSkips | grub_legacy_efi/efi/efimisc.c:423-431 | an empty component and a closed "." component are left out |
| PathName.SlashStays | grub_legacy_efi/efi/efimisc.c:435-437 | a slash of the path stays and begins a component |
| PathName.CleanIsNormal | grub_legacy_efi/efi/efimisc.c:407-441 | the result has no backslash, no two slashes in a row and no "." between slashes |
| PathName.AllAddNothing | grub_legacy_efi/efi/efimisc.c:407-441 | the result has no character but the path's own and slashes |
| PathName.Copied | grub_legacy_efi/efi/efimisc.c:427-437 | copying a character overwrites nothing unread and keeps what was written the beginning of the result |
| PathName.Skipped | grub_legacy_efi/efi/efimisc.c:423-431 | so does leaving out a separator or a "." component |
| PathName.Closed | grub_legacy_efi/efi/efimisc.c:429-433 | so does closing a component |
| PathName.TurnKeeps | grub_legacy_efi/efi/efimisc.c:416-439 | every turn of the loop stays in the buffer, keeps all this and comes nearer to the end |
| PathName.EndsIffSuitable | grub_legacy_efi/efi/efimisc.c:407-441 | for every path the loop ends inside its buffer if and only if the path is suitable |
| PathName.SingleBackslashes | grub_legacy_efi/efi/efimisc.c:407-441 | it does not end for a path of two components, each behind one backslash |
| PathName.UsualPaths | grub_legacy_efi/efi/efimisc.c:490-490 | paths that begin with two backslashes are suitable, and so are those with no backslash behind the first character; without slashes the result is normal |
| PathName.CrawlOrStick | grub_legacy_efi/efi/efimisc.c:416-439 | on any other path it copies in place until a slash overwrites the backslash it is reading |
| PathName.StuckForGood | grub_legacy_efi/efi/efimisc.c:416-439 | from there on it copies slashes without end |
| PathName.FixStep | grub_legacy_efi/efi/efimisc.c:418-438 | the loop's body does the turn |
| PathName.FixPathName | grub_legacy_efi/efi/efimisc.c:407-441 | for every suitable path, with or without slashes of its own, the buffer holds the cleaned path, and nothing behind the path is touched |
| Utf.CharLenMeans | grub_legacy_efi/efi/efimisc.c:111-115 | the packed constant gives the number of bytes that the lead byte announces |
| Utf.DecodeOne | grub_legacy_efi/efi/efimisc.c:119-147 | every code point's UTF-8 encoding (section 3 of RFC 3629) is read back as that code point |
| Utf.ReadChar | grub_legacy_efi/efi/efimisc.c:159-161 | inside a text the first character is read and exactly its bytes are passed |
| Utf.WriteUnits | grub_legacy_efi/efi/efimisc.c:163-175 | one unit or a surrogate pair (section 2.1 of RFC 2781) is written and nothing behind it |
| Utf.SurrogatesMean | grub_legacy_efi/efi/efimisc.c:168-174 | above 0xFFFF the two units are a high and a low surrogate with ten bits each of the character less 0x10000 |
| Utf.Utf16ReadsBack | grub_legacy_efi/efi/efimisc.c:163-175 | every text is read back from its UTF-16 encoding by the definition of UTF-16 |
| Utf.Utf8ToUtf16 | grub_legacy_efi/efi/efimisc.c:149-182 | every well-formed text becomes its UTF-16 encoding, closed by a zero if there is room, and nothing else is touched |
| Utf.UnitBytesIff | grub_legacy_efi/efi/efimisc.c:215-240 | the bytes written for a unit are its UTF-8 encoding if and only if it is at most 0x7FF |
| Utf.EuroSign | grub_legacy_efi/efi/efimisc.c:234-239 | the euro sign comes out as E0 82 AC, and not as E2 82 AC |
| Utf.Utf16ToUtf8 | grub_legacy_efi/efi/efimisc.c:184-244 | at most three bytes are written per unit; without surrogates the bytes are those of the units one after the other |
| Utf.NodeText | grub_legacy_efi/efi/efimisc.c:469-474 | the text of a file path node and the zero behind it fit in the buffer set aside for them |
| Utf.LowUnitsAreText | grub_legacy_efi/efi/efimisc.c:217-223 | units up to 0x7FF are encoded as well-formed UTF-8 of the same text |
| Utf.LowTextIsUnits | grub_legacy_efi/efi/efimisc.c:163-168 | text up to 0x7FF has one unit per character |
| Utf.ThereAndBack | grub_legacy_efi/efi/efimisc.c:149-244 | units up to 0x7FF come back unchanged |
| Utf.BackAndThere | grub_legacy_efi/efi/efimisc.c:149-244 | UTF-8 text up to 0x7FF comes back unchanged |
| Inet.ValueOfNumeral | grub_legacy_efi/netboot/misc.c:149-154 | the numeral of a number stands for that number |
| Inet.Digits | grub_legacy_efi/netboot/misc.c:149-154 | the digits are 0 to 9, with their values |
| Inet.PutDigits | grub_legacy_efi/netboot/misc.c:148-154 | the digits are written lowest first |
| Inet.ReverseInPlace | grub_legacy_efi/netboot/misc.c:156-163 | the swaps reverse exactly that part of the buffer |
| Inet.PutDecimal | grub_legacy_efi/netboot/misc.c:137-164 | the numeral is written, and what is before it stays |
| Inet.PutAddress | grub_legacy_efi/netboot/misc.c:165-181 | the four bytes in dotted notation |
| Inet.GetDec | grub_legacy_efi/netboot/misc.c:256-274 | the value of the longest run of digits and the place behind it, or -1 without any |
| Inet.InetAton | grub_legacy_efi/netboot/misc.c:231-254 | accepts exactly four numbers below 256 separated by dots, and gives the address in network order |
| Inet.ReadByte | grub_legacy_efi/netboot/misc.c:238-249 | each byte of a printed address is read as that byte |
| Inet.HtonlOfBytes | grub_legacy_efi/netboot/misc.c:251-251 | the bytes gathered in order and swapped are the address |
| Inet.DottedReadsBack | grub_legacy_efi/netboot/misc.c:231-254 | every address comes back from its dotted notation, whatever follows it that is not a digit |
| Inet.DottedExample | grub_legacy_efi/netboot/misc.c:165-181 | the address with the bytes 192, 168, 0, 1 is printed 192.168.0.1 |
| Inet.PrintAndRead | grub_legacy_efi/netboot/misc.c:165-254 | printing and reading any 32-bit address returns it |
| Signature.SameContinuation | grub_legacy_efi/netboot/depca.c:682-685 | because of the signature's structure, a shorter match inside a longer one expects the same next byte |
| Signature.FallbackIsRight | grub_legacy_efi/netboot/depca.c:682-685 | so the simple fallback leaves the longest beginning of the signature that ends there |
| Signature.OneByte | grub_legacy_efi/netboot/depca.c:680-686 | after every byte j is that longest beginning, and it is complete exactly behind an occurrence |
| Signature.Probe | grub_legacy_efi/netboot/depca.c:680-688 | finds FF 00 55 AA FF 00 55 AA if and only if it occurs within the first 39 bytes, and stops right behind the first occurrence |
| Signature.EveryRotationIsCovered | grub_legacy_efi/netboot/depca.c:680-686 | 39 reads from any place of a cyclic 32-byte PROM that contains the signature meet it |

## Left out

- Orderings of getopt other than PERMUTE (`+` and `-` prefixes, POSIXLY_CORRECT), `-W`, the `_LIBC` flags of non-options and the messages on stderr: grub/main.c uses none of them, or they are output only.
- The value -1 of `_getopt_internal` is a case of its own in the model, so an option whose own value is -1 is not confused with the end.
- TFTP timing, the text of the read request and byte-level reading of option acknowledgements, which the model takes as a list of options with their numbers.
- TFTP servers that do not conform: the model's server answers truthfully, with a block size the client asked for at most, and the file does not change between requests.
- 32-bit overflow of `filepos`, `filemax` and of the numbers read by `getdec`.
- Which failure of the network made a TFTP request fail. The script of the network is finite and silence follows it, so a client that waits for ever, as it does at block 65535 on a network that keeps repeating packets, ends in silence in the model.
- Tftp.ReadOnSchedule: is stated for a server that grants both options and a network that brings no stray packets.
- GetoptUsage.ReadsAsMeant: clusters of letters and names behind one dash that are not known are not covered for `getopt_long_only`, nor `--name` without a table of long options; grub/main.c uses neither.
- Tftp.Client.Read: that a read behind a backward seek is served on schedule is stated for a seek from the end of the file, where no packet has to be waited for before the new request.
- Memory descriptors that reach the top of the 64-bit address space; `update_e820_map` and the loop that sizes the buffer of the memory map.
- Pages freed in parts, the pool allocator, and sizes of allocations that overlap: the firmware's allocator is known by the addresses it hands out.
- Overrun recovery of `ns8390_poll`, probing, transmitting and the register toggling of WD and 3C503 cards; the chip is taken to store every frame that leaves one page free.
- `make_devices`, `name_devices`, `assign_device_name` and handles of disks, and the printer and the HD parser of device paths.
- DevicePath.FindParent: requires memory for the copy and a node to end it at; the code looks for neither and would go through a null pointer.
- Drawing, palettes, video modes, `graphics_cls` and positions set by a caller from outside the screen.
- `grub_efi_file_path_to_path_name` as a whole and `safe_parse_maxulong`: easy members.
- Utf.Utf16ToUtf8: for surrogates only the number of bytes is stated, since line 200 shifts by 12 and the result is not the standard encoding.
- Malformed UTF-8 as input of `grub_utf8_to_utf16`, and destinations that are too short.
- Inet.PutDecimal: negative numbers and the other conversions of `etherboot_vsprintf` are not modelled.
- The set-up of the DEPCA card and its address checksum.
- The other network drivers, PCI, the wrappers of EFI calls, `efitftp.c`, `pxe.c`, `grub/asmstub.c`, the rest of `grub/main.c` and `lib/device.c`: firmware and operating-system I/O.
