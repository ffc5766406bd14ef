# Models of dc, aan, ed, ar, fcp and factor

Six programs of the Plan 9 command tree, modelled in Dafny together with proofs of what each of
them is for. `dafny verify dfyconfig.toml` checks everything.

* **dc** (`dc_*.dfy`, `sys/src/cmd/dc.c`). A number is a string of base-100 digits, least
  significant first, whose top digit may be -1. `Radix.Val` is the integer a string stands for,
  and every routine is specified by it. A `Blocks.Blk` is the program's string block, a
  buffer with a read and a write cursor that the routines change in place through the same macros;
  its cells are -128..127 by type, so that no digit, trial digit or carry ever wraps is part of every proof.
  Long division is proved in layers: the trial digit as
  arithmetic on integers (`dc_trial`), one step of the loop and the loop (`dc_div`), signs and the
  stack (`dc_calc`). The square root, the power, the decimal shifts, the `/` and `v` commands, the
  reader and the printer are built on it.
* **aan** (`aan_*.dfy`, `sys/src/cmd/aan.c`). Two ends that exchange numbered messages over
  connections which break and lose any suffix of what was written. `AanModel.Step` is one step of
  either end, `AanModel.Inv` the invariant, `AanProof` the theorems over all runs, `AanRecovery`
  what happens once the ends have met again, and
  `AanPeer.Peer` the processes of one end as methods that carry out those steps.
* **ed** (`ed_*.dfy`, `sys/src/cmd/ed.c`). The two-buffer block cache over the temporary file as a
  class that refines a map from handles to lines; the array of line handles as a class whose
  in-place algorithms are proved equal to operations on sequences; the global command; what each
  edit does entry by entry (`EditLaws`); and join and the copying move over the store and the
  array together.
* **ar** (`ar_*.dfy`, `sys/src/cmd/ar.c`). The archive as a function of the members given
  (`ArchiveModel`), what its symbol table says (`ArchiveProof`), and the temporary files as
  linked lists that page their members to disk whenever an allocation fails (`Archiver`).
* **fcp** (`fcp*.dfy`, `sys/src/cmd/fcp.c`). The parent and its workers as a system of interleaved steps over
  one offset counter, with failing forks, reads and writes, and killed workers; when the copy is
  right (`ParallelCopy`), what it returns, and that every run of it can end (`CopyOutcome`).
* **factor** (`factor.dfy`, `sys/src/cmd/factor.c`). The wheel and the trial division, on exact integers.

Results that say the code does not always do what one would expect:

* `DecimalScale.RemovcTruncates`: `removc` truncates toward zero except for a negative number whose
  dropped cells are not all zero: dropping cells rounds down. The lemma says for exactly which
  numbers and cuts this shows in the result, and `DecimalScale.RemovcRoundsDown` gives one.
* `LineStore.Store.Putline`: putting a line keeps all others readable if and only if
  `LineStore.Safe` holds before it: the block it begins in is past the last one, is in a buffer,
  or holds no rune of a line that the output buffer contradicts. Until a line has failed to fit
  this is always so. `LineStore.Overflow` runs a store into the other case, and out of it by
  reading the line first.
* `LineStore.MarkedReads`: a handle that carries the mark of the global command reads as its line
  if and only if the line is empty and the rune behind the zero that ends it is a zero too. Any
  other line reads without its first rune, and an empty one as whatever stands behind it;
  `LineStore.StaleEmpty` is a run in which that is three runes of an older line and the line after.
* `GlobalCommand.GlobalDelete`: the special case of `g/re/d` leaves `dol` before the start of the
  array exactly when a `v` command meets an empty buffer.
* `LineArray.DotsAgree`: `g/re/d` leaves dot where deleting the lines one at a time would, unless a
  single line went; then the special case leaves dot alone, but for the end of the lines.
* `AanRecovery.OneWayStalls`: as long as one client gives nothing, the other can give no more than
  the buffers hold, on the best of connections. Messages are acknowledged by data going the other
  way only: a synchronization message is dropped with its ack (`sys/src/cmd/aan.c:279-285`).
* `ParallelCopy.CopyExact`: a copy that returns 0 is right if and only if every read that does not
  begin a block gives the bytes at the front of that block over again;
  `ParallelCopy.ShortReadWrong` is a run in which one does not.
* `Archiver.Build`: what is written is the archive if and only if no attempt to page a member has
  stopped halfway and left bytes behind.

Where comments and code disagree, the code is followed: the comment at `sys/src/cmd/ar.c:11-17`
puts new files into the middle file, but `r` appends them to the first one
(`sys/src/cmd/ar.c:300-301`), so a member goes to the first, the middle or the current file.

## Model

| member | source | states |
|---|---|---|
| Radix.NormalUnique | sys/src/cmd/dc.c:1392-1425 | two digit strings in dc's normal form with one value are equal, apart from the two forms of minus one |
| Blocks.Blk.Sputc | sys/src/cmd/dc.c:37-38 | a digit is appended, growing the block when it is full; digits before it and the other cursor stay |
| Blocks.Blk.Salterc | sys/src/cmd/dc.c:39-41 | the cell under the read cursor is replaced, the number one cell longer when the cursor was at its end |
| Blocks.Blk.Seekc | sys/src/cmd/dc.c:2144-2173 | moves the read cursor to n, extending a shorter number by cells whose contents are not promised |
| Arith.NegationValue | sys/src/cmd/dc.c:1392-1409 | the hundreds' complement with its final borrow stands for the negated value |
| Arith.CloseNormal | sys/src/cmd/dc.c:1409-1423 | closing the complement (a -1 on top folded over a 99, or a zero dropped) keeps numbers signed and in normal form |
| Arith.ChSign | sys/src/cmd/dc.c:1392-1425 | negates the value in place and keeps the normal form |
| Addition.Column | sys/src/cmd/dc.c:1767-1788 | the column loop gives the exact sum, every digit 0..99 below a carry that may be -1 |
| Addition.Add | sys/src/cmd/dc.c:1761-1809 | the sum of the values, in normal form, for any two cell strings -1..99, normal or not |
| Multiplication.RowDigit | sys/src/cmd/dc.c:1369-1375 | a row carry never exceeds 99 and every digit stored is 0..99 |
| Multiplication.Row | sys/src/cmd/dc.c:1364-1380 | one row adds exactly its share; its last carry lands on a fresh cell |
| Multiplication.RowsNormal | sys/src/cmd/dc.c:1360-1381 | the product of numbers in normal form has no zero on top, by the size of its value |
| Multiplication.Mult | sys/src/cmd/dc.c:1334-1390 | the exact signed product, in normal form when the factors are |
| TrialDigit.EarlyDigit | sys/src/cmd/dc.c:866-884 | a trial digit before the last never overshoots, is at most 116, and leaves less than 1.17 divisors of the next place |
| TrialDigit.LastDigit | sys/src/cmd/dc.c:866-884 | the last trial digit is at most one too small when lowered on purpose, at most one too large otherwise |
| Division.LeadThreeBounds | sys/src/cmd/dc.c:866-871 | the three leading cells bound the dividend from both sides |
| Division.LeadingIsRight | sys/src/cmd/dc.c:854-863 | the divisor's leading digits, scaled by 8 when the first is below ten, bound the divisor |
| Division.TrialRange | sys/src/cmd/dc.c:864-884 | the trial digit read off the cells is within 0..118 and off by at most what the two cases allow |
| Division.MultiplyOut | sys/src/cmd/dc.c:885-894 | the product of trial digit and divisor is written over the scratch block whatever stale digits it holds |
| Division.SubtractAt | sys/src/cmd/dc.c:895-907 | subtracts the product at its place; the borrow left over is divcarry |
| Division.Step | sys/src/cmd/dc.c:865-907 | one round takes the trial digit times the divisor at its place off the dividend |
| Division.EarlyStep | sys/src/cmd/dc.c:911-918 | the digit over a hundred that is kept stays below 117 and the invariant holds one place down |
| Division.EarlyDigits | sys/src/cmd/dc.c:864-919 | all rounds but the last keep dividend = rest + divisor * digits so far |
| Division.LastStep | sys/src/cmd/dc.c:864-919 | after the last round the rest is in range, one divisor too large only if under, negative only if divcarry |
| Division.Correct | sys/src/cmd/dc.c:920-939 | the corrections up and down leave a rest below the divisor and change the last digit accordingly |
| Division.CarryPass | sys/src/cmd/dc.c:941-952 | digits over 99 are carried without changing the quotient |
| Calculator.LongDivision | sys/src/cmd/dc.c:850-966 | dividend = rest + divisor * quotient with 0 <= rest < divisor, both in normal form |
| Calculator.QuotientUnique | sys/src/cmd/dc.c:816-974 | truncated division is the only quotient with a remainder smaller than the divisor and zero or of the dividend's sign |
| Calculator.Dc.Div | sys/src/cmd/dc.c:816-974 | the quotient truncated toward zero, with the remainder in rem, for every nonzero divisor and any stale scratch block; a zero divisor is pushed back |
| SquareRoot.CountOdds | sys/src/cmd/dc.c:1076-1079 | counting odd numbers gives one more than the root of the leading digits |
| SquareRoot.Start | sys/src/cmd/dc.c:1067-1087 | the start value is above the root |
| SquareRoot.NewtonAbove | sys/src/cmd/dc.c:1089-1093 | a Newton step never falls below the root |
| SquareRoot.NewtonStops | sys/src/cmd/dc.c:1096-1106 | a step that does not go down started at the root |
| SquareRoot.DcSqrt | sys/src/cmd/dc.c:1061-1112 | for every positive number the loop ends with the integer root |
| SquareRoot.RootUnique | sys/src/cmd/dc.c:1061-1112 | a number has one integer root |
| Exponent.SquaringStep | sys/src/cmd/dc.c:1133-1149 | squaring the base and halving the exponent keeps the result |
| Exponent.Halve | sys/src/cmd/dc.c:1134-1138 | one division by two gives half the exponent and its parity |
| Exponent.Raise | sys/src/cmd/dc.c:1133-1149 | the loop ends with base to the power of the exponent |
| Exponent.DcExp | sys/src/cmd/dc.c:1114-1169 | base^ex for every ex >= 0; for ex < 0, which no caller passes, one and the one-digit minus one give themselves, anything else zero |
| Exponent.ReciprocalRight | sys/src/cmd/dc.c:1150-1164 | the answer for a negative exponent is the truncated reciprocal if and only if the base is not minus one, or is its one-digit form and the exponent odd |
| DecimalScale.Add0 | sys/src/cmd/dc.c:1308-1332 | multiplies by 10^ct, even or odd ct |
| DecimalScale.Removr | sys/src/cmd/dc.c:1014-1059 | divides by 10^n truncating toward zero, for both signs (the value returned) |
| DecimalScale.Removc | sys/src/cmd/dc.c:1841-1862 | dropping cells rounds down and dividing off an odd decimal truncates; the result is in normal form |
| DecimalScale.RemovcTruncates | sys/src/cmd/dc.c:1841-1862 | removc equals truncation toward zero if and only if the number is nonnegative, too short, cut off zeros only, or the rounding does not reach a multiple of ten in the odd case |
| DecimalScale.RemovcRoundsDown | sys/src/cmd/dc.c:1841-1862 | a number for which it does not |
| DecimalScale.QuotientCancel | sys/src/cmd/dc.c:1001-1007 | a common factor cancels in truncated division |
| DecimalScale.QuotientTwice | sys/src/cmd/dc.c:1001-1007 | cutting decimals first and dividing after is one truncation |
| Commands.PadDecimals | sys/src/cmd/dc.c:1004-1005 | padding the dividend to k decimals and dividing gives the quotient cut at k decimals |
| Commands.CutDecimals | sys/src/cmd/dc.c:1002-1003 | cutting the dividend and dividing gives the same quotient |
| Commands.Rescale | sys/src/cmd/dc.c:1001-1007 | the dividend is multiplied by 10^c or truncated by 10^-c |
| Commands.Quotients | sys/src/cmd/dc.c:976-1012 | the true quotient truncated toward zero at exactly k decimals |
| Commands.Slash | sys/src/cmd/dc.c:268-276 | the / command on the stack: quotient at k decimals with scale k, zero dividend and zero divisor left as the code leaves them, nothing changed below |
| Commands.Root | sys/src/cmd/dc.c:295-318 | the v command: root at max(k, scale) decimals; zero stays, a negative number is dropped |
| DecimalText.AppendDigit | sys/src/cmd/dc.c:1288-1294 | one more digit: ten times the number plus the digit |
| DecimalText.ScaleBy | sys/src/cmd/dc.c:1874-1890 | scale keeps the digits and appends the scale |
| DecimalText.FeedFold | sys/src/cmd/dc.c:1272-1274 | a folded line, backslash and newline, does not change what is read |
| DecimalText.NumeralEnds | sys/src/cmd/dc.c:1264-1298 | a numeral followed by a character that cannot continue it is read to its end |
| DecimalText.AcceptEnds | sys/src/cmd/dc.c:1264-1282 | a numeral ends at a character that is no digit 0-9 or A-F and no point, or at its second point |
| DecimalText.PositionalSnoc | sys/src/cmd/dc.c:1275-1294 | one more character keeps the reading the positional value of what was read, decimals from the hundredth on ignored |
| DecimalText.NumeralMeans | sys/src/cmd/dc.c:1264-1298 | where the reading ends, and that what it has read is the value of the characters at their places, backslashed ones skipped |
| DecimalText.Readin | sys/src/cmd/dc.c:1256-1306 | value, scale and end of the numeral as the reference reading gives them; the value is that of the digits at their places, and the character it stops at is spelled out |
| DecimalText.Tenot | sys/src/cmd/dc.c:1618-1666 | without its folds the text is exactly the decimal numeral of the number, with no zero in front of a digit above the point and of exactly the length stated; with folds every line has the length OUTC counts; and it reads as the number and its scale |
| DecimalText.DecimalDigits | sys/src/cmd/dc.c:1618-1630 | how many digits a positive number is printed with, and that the first is no zero |
| DecimalText.NumeralShape | sys/src/cmd/dc.c:1618-1666 | the length of the numeral in all cases of the scale, and its first character |
| DecimalText.PrintThenRead | sys/src/cmd/dc.c:1256-1306 | reading what tenot printed gives the same digits and scale, for every positive number, scale 0..99 and line length |
| AanPeer.Peer.FromClient | sys/src/cmd/aan.c:231-244 | the next number for what was read from the client; an empty read closes |
| AanPeer.Peer.SendUnsent | sys/src/cmd/aan.c:201-218 | the first unsent message is queued as unacked, stamped with the ack of the moment, and written if connected |
| AanPeer.Peer.Synchronize | sys/src/cmd/aan.c:364-385 | every unacked message is written again in order, with its old header, and stays queued |
| AanPeer.Peer.ReleaseAcked | sys/src/cmd/aan.c:304-315 | exactly the acknowledged messages leave the queue and their buffers return |
| AanPeer.Peer.FromNet | sys/src/cmd/aan.c:279-320 | duplicates and synchronization messages are dropped, the next message is delivered and counted, an empty one closes |
| AanProof.StreamWriteAll | sys/src/cmd/aan.c:376-385 | resending from lastacked starts an in-order stream of the messages as first sent |
| AanProof.NextMessage | sys/src/cmd/aan.c:275-302 | what arrives is the message first sent under its number, in sequence or already seen |
| AanProof.AckCheckHolds | sys/src/cmd/aan.c:304-315 | under the invariant the check before assert(0) never fails, and no number above inmsg arrives |
| AanProof.KeepsInv | sys/src/cmd/aan.c:186-218 | every step of either end keeps the invariant, breaks, losses and reconnects included |
| AanProof.Delivery | sys/src/cmd/aan.c:225-323 | in every reachable state each client has been given a prefix of what the other side's client sent |
| AanProof.CloseMeansAll | sys/src/cmd/aan.c:279-283 | an end that saw the close message has delivered everything |
| AanProof.ReachableDiscipline | sys/src/cmd/aan.c:298-317 | in every reachable state unacked numbers are consecutive from lastacked, the peer's inmsg lies among them, acks never decrease, buffers are conserved and the ack check holds |
| AanRecovery.Recovery | sys/src/cmd/aan.c:330-385 | from every reachable state: once the ends have met again, sending what is unsent and reading what has come brings every byte either client has given, and the close exactly when there was one |
| AanRecovery.BuffersReturn | sys/src/cmd/aan.c:304-316 | once a message comes back all buffers of the messages that arrived are free again |
| AanRecovery.OneWayStalls | sys/src/cmd/aan.c:279-285 | a client that gets nothing back can give no more messages than there are buffers |
| AanRecovery.FewArrive | sys/src/cmd/aan.c:201-244 | any sequence of chunks that fits the buffers can be given, and reaches the other client whole |
| LineStore.Store.GetBlock | sys/src/cmd/ed.c:1042-1076 | which buffer serves a block, what is written back, and when the file is full |
| LineStore.Store.Fetch | sys/src/cmd/ed.c:1042-1071 | reading a block that is in a buffer or in the file gives that block and keeps every other |
| LineStore.Store.Getline | sys/src/cmd/ed.c:982-1001 | for every handle stored since init exactly its runes, ended by a zero |
| LineStore.BeginKeeps | sys/src/cmd/ed.c:1062-1075 | opening the block of a line for writing keeps every earlier line if and only if it is safe to begin there |
| LineStore.Store.Putline | sys/src/cmd/ed.c:1003-1031 | stores the line under a new handle exactly when it ends within the last block, and touches nothing else when it stays in one block; stored or not, every earlier line stays readable if and only if beginning there was safe, as it always is until a line that began before the last block has failed |
| LineStore.OneLineAt | sys/src/cmd/ed.c:992-999 | what getline answers at a handle is one line only, so a line that is not in place is not answered |
| LineStore.Store.GetAs | sys/src/cmd/ed.c:982-1001 | getline at any position answers the runes from there up to the next zero, and moves nothing |
| LineStore.MarkedReads | sys/src/cmd/ed.c:1051-1060 | for any line, empty ones included: with its mark bit set a handle reads as the line if and only if the line is empty and a zero follows its zero; any other line reads without its first rune |
| LineStore.Store.GetMarked | sys/src/cmd/ed.c:1051-1060 | getline for a marked handle answers what stands from the second position on: the line without its first rune, or of an empty line the runes up to the next zero |
| LineStore.StaleEmpty | sys/src/cmd/ed.c:1072-1075 | a run after which a marked empty line reads as stale runes of the block before and the next line |
| LineStore.Overflow | sys/src/cmd/ed.c:1062-1075 | a run in which a line is lost after another did not fit, and the same run in which it was read in between and stays |
| LineStore.Store.Init | sys/src/cmd/ed.c:1078-1097 | an empty, sound store |
| LineStore.Replay | sys/src/cmd/ed.c:982-1031 | any mix of stores and fetches answers every fetch with the line stored, and is cut short exactly at the first line that ends beyond the last block |
| LineArray.Lines.Rdelete | sys/src/cmd/ed.c:941-958 | removes lines ad1..ad2 and sets dot |
| LineArray.Lines.Gdelete | sys/src/cmd/ed.c:960-980 | the one-pass compaction leaves exactly the unmarked entries in order, dot within them, and moved by the second marked entry and those after it only |
| LineArray.DotsAgree | sys/src/cmd/ed.c:960-980 | dot ends where deleting one line at a time leaves it if and only if more than one line went or dot was there already |
| LineArray.Lines.Append | sys/src/cmd/ed.c:809-842 | the new lines stand after line a in order, dot on the last, growing the array when needed |
| LineArray.Lines.Reverse | sys/src/cmd/ed.c:1376-1388 | reverses the entries in place and touches no other |
| LineArray.Lines.Move | sys/src/cmd/ed.c:1333-1374 | three reversals cut the lines out and put them after the target, dot on the last; a target inside is refused with marks cleared |
| LineArray.Lines.Copy | sys/src/cmd/ed.c:1342-1374 | the handles of the copies stand after the target and the originals stay |
| LineArray.MovedIsRotated | sys/src/cmd/ed.c:1357-1371 | cutting and inserting is an exchange of two neighbouring runs, for targets on either side |
| LineArray.CopiedIsRotated | sys/src/cmd/ed.c:1342-1371 | copies made at the end and rotated down are copies inserted at the target |
| GlobalCommand.EffectMarks | sys/src/cmd/ed.c:809-842 | no edit makes a mark: append, delete, change, move, copy, join, substitute and undo |
| GlobalCommand.RunEdit | sys/src/cmd/ed.c:208-352 | each command's in-place form has the effect on lines, undo and dot stated for sequences, or is refused with at most the marks of a move's lines cleared |
| EditLaws.EditsInTurn | sys/src/cmd/ed.c:1139-1151 | the edits of a list are performed in turn, and none after a refusal |
| EditLaws.Adds | sys/src/cmd/ed.c:809-842 | added and copied lines, entry by entry, and dot on the last |
| EditLaws.Changes | sys/src/cmd/ed.c:217-222 | the new lines stand in the place of the range |
| EditLaws.Deletes | sys/src/cmd/ed.c:941-958 | the range is gone, dot on the line after it or on the last |
| EditLaws.MovesUp | sys/src/cmd/ed.c:1351-1363 | a move to an earlier line, entry by entry, the marks of the range gone |
| EditLaws.MovesDown | sys/src/cmd/ed.c:1351-1371 | a move to a later line, entry by entry |
| EditLaws.MovesNowhere | sys/src/cmd/ed.c:1351-1373 | a move into its own range is refused, the marks of the range lost |
| EditLaws.Joins | sys/src/cmd/ed.c:1154-1176 | one line stands in the place of the range, dot on it |
| EditLaws.Substitutes | sys/src/cmd/ed.c:1204-1219 | the new line and those split off it, and what undo is left with |
| EditLaws.Undoes | sys/src/cmd/ed.c:343-351 | accepted exactly on the line of the latest substitution, and puts the old line there |
| EditLaws.UndoSubst | sys/src/cmd/ed.c:343-351 | undo after a substitution brings the old line back, a second undo is refused |
| EditLaws.UndoRestores | sys/src/cmd/ed.c:343-351 | with no line split off all lines are as before, but for the mark |
| EditLaws.AddThenDelete | sys/src/cmd/ed.c:809-842 | lines added and deleted again leave all as it was |
| EditLaws.MoveAndBack | sys/src/cmd/ed.c:1333-1374 | a move and the move back leave every line in its place, the range without marks |
| GlobalCommand.SubstLine | sys/src/cmd/ed.c:1204-1219 | one substituted line, its new handles given: where they go, and what undo needs |
| GlobalCommand.JoinLines | sys/src/cmd/ed.c:1172-1175 | the handle of the joined line replaces those of the range |
| LineText.TextReads | sys/src/cmd/ed.c:1051-1060 | what reading a handle of the array gives, marked or not: its line, the line without its first rune, or for a marked empty line nothing exactly when a zero stands there |
| LineText.RangeReads | sys/src/cmd/ed.c:1160-1167 | so reading a range of lines, marked ones among them, gives these texts |
| LineText.Gather | sys/src/cmd/ed.c:1160-1167 | what is read of the range, one after the other, refused exactly when longer than the buffer allows |
| LineText.Join | sys/src/cmd/ed.c:1154-1176 | the new line is the concatenation of what is read of the lines joined, marked or not, and every other line as before; it fails exactly when too long or the file is full, and then changes nothing |
| LineText.CopyOne | sys/src/cmd/ed.c:1390-1397 | what is read of a line is stored under a new handle, and what is read of the others stays |
| LineText.CopyLines | sys/src/cmd/ed.c:1342-1374 | each new line after the target is what is read of its original, marked or not, and the originals stay; when the file fills up the copies made until then are at the end |
| GlobalCommand.Rounds | sys/src/cmd/ed.c:1139-1151 | clearing the first mark, putting dot on it and performing the list there, again and again, ends after at most one round per marked line, with no mark left when nothing is refused |
| GlobalCommand.Global | sys/src/cmd/ed.c:1139-1151 | the restarting scan of the array does exactly these rounds, the list running with dot on the marked line, and ends |
| GlobalCommand.PerformedMarks | sys/src/cmd/ed.c:1139-1151 | a command list never adds a mark, nor touches the slot before the first line |
| GlobalCommand.RoundsDelete | sys/src/cmd/ed.c:1139-1151 | rounds that each delete the line dot is on leave the unmarked lines, and dot in the place of the last deleted one |
| GlobalCommand.SlowDelete | sys/src/cmd/ed.c:1139-1151 | the loop of Global with d as its command leaves the same line sequence as the compaction, and dot in the place of the last deleted line |
| GlobalCommand.MarkMatching | sys/src/cmd/ed.c:1124-1128 | marks exactly the matching lines of the range and clears every other mark |
| GlobalCommand.GlobalDelete | sys/src/cmd/ed.c:1124-1137 | g/re/d keeps exactly the other lines, in order, with dot not after the last; dol ends below zero if and only if v meets an empty buffer |
| Archiver.Arfile.Arinsert | sys/src/cmd/ar.c:1071-1080 | the buffer is linked at the end of the chain |
| Archiver.Arfile.Insert | sys/src/cmd/ar.c:751-767 | a member enters with its scanned symbols and size grows by its header and padded length |
| Archiver.Arfile.Page | sys/src/cmd/ar.c:1134-1157 | the first buffer moves from the chain to the disk copy, or stays in the chain while a write that stops early leaves bytes on disk; contents, size and symbols stay |
| Archiver.Arfile.Arstream | sys/src/cmd/ar.c:1085-1111 | disk part and chain stream out as all members in insertion order, size bytes, and longer by exactly what failed attempts to page have left |
| Archiver.Ar.Getspace | sys/src/cmd/ar.c:1164-1174 | pages one buffer of the first file, in the order start, middle, end, that has one and can be paged; fails exactly when none can |
| Archiver.Ar.Armalloc | sys/src/cmd/ar.c:1195-1210 | any pattern of failing allocations only pages, as often as they fail, and gives up exactly when nothing can be paged |
| Archiver.Ar.Objsym | sys/src/cmd/ar.c:559-586 | text and data symbols are kept with the current size as offset, a text symbol seen before raises dupfound, and symdefsize stays the size of the tables |
| Archiver.Ar.Scanobj | sys/src/cmd/ar.c:518-554 | the four ways a scan ends, and the symbols left for the member |
| Archiver.Ar.AddMember | sys/src/cmd/ar.c:253-256 | scan and copy of one member, with paging at any allocation, add it to the plan |
| Archiver.Wrsym | sys/src/cmd/ar.c:865-881 | writes kind, four offset bytes and name of every symbol |
| Archiver.Ar.Rl | sys/src/cmd/ar.c:817-860 | header, the three tables with their base offsets, and the odd byte |
| Archiver.Ar.Install | sys/src/cmd/ar.c:783-815 | nothing is written for objects with a duplicate; otherwise what is written is the archive of the plan if and only if no failed attempt to page has left bytes |
| ArchiveProof.PlentySuffices | sys/src/cmd/ar.c:1195-1210 | when malloc never fails memory suffices, and nothing is left behind |
| ArchiveProof.NeatSuffices | sys/src/cmd/ar.c:1134-1157 | when no write to a temporary file stops halfway nothing is left behind, however short memory is |
| Archiver.Build | sys/src/cmd/ar.c:783-815 | for any sequence of members and any shortage of memory: the program ends early if and only if an allocation fails with nothing left to page, counted allocation by allocation; otherwise it writes the archive of the plan if and only if no failed attempt to page has left bytes |
| ArchiveProof.TablesLength | sys/src/cmd/ar.c:582-583 | the bytes wrsym writes are symdefsize |
| ArchiveProof.TablesRead | sys/src/cmd/ar.c:865-881 | a reader gets back every symbol and offset, odd byte or not, below 2^32 |
| ArchiveProof.FlatAt | sys/src/cmd/ar.c:1085-1111 | a member's bytes stand at the sum of the sizes before it |
| ArchiveProof.SymbolPoints | sys/src/cmd/ar.c:817-881 | the table read from the archive holds a symbol at an offset if and only if that is the position of the header of a member carrying it |
| ArchiveProof.MemberStands | sys/src/cmd/ar.c:783-815 | at each member's position the archive holds its header and data |
| ArchiveProof.ClashMeans | sys/src/cmd/ar.c:574-580 | dupfound means a text symbol that was seen before or comes twice |
| ArchiveProof.ObjectsOnly | sys/src/cmd/ar.c:518-554 | allobj stays set exactly when all members are readable objects of one kind |
| ArchiveProof.Duplicates | sys/src/cmd/ar.c:559-609 | over a run of objects dupfound is set exactly when two of their text symbols have one name |
| ArchiveProof.EntriesAreScanned | sys/src/cmd/ar.c:518-586 | in an archive of objects without duplicates each member carries exactly its text and data symbols |
| ArchiveProof.NothingLost | sys/src/cmd/ar.c:719-767 | every member given is in the archive as often as given |
| ArchiveProof.OrderBefore | sys/src/cmd/ar.c:253-303 | without a pivot the members are in the first file, or in the middle one, in the order given |
| ArchiveProof.OrderAround | sys/src/cmd/ar.c:253-303 | which members stand in which file, and in which order, around the pivot |
| ArchiveProof.ArchiveOrder | sys/src/cmd/ar.c:783-815 | the order of the archive: copied before the pivot or added, moved, copied after |
| ArchiveProof.SymbolTableTrue | sys/src/cmd/ar.c:817-881 | for any sequence of operations each table entry points at the header of a member defining the symbol, and each symbol of each member has such an entry |
| ParallelCopy.StepKeeps | sys/src/cmd/fcp.c:191-234 | every step of the parent or a worker keeps the invariant |
| ParallelCopy.CopyRight | sys/src/cmd/fcp.c:151-234 | whatever the workers and the interleaving, with whole reads a copy that returns 0 equals the source |
| ParallelCopy.CopyOrigins | sys/src/cmd/fcp.c:191-221 | with any reads, every byte of a copy that returns 0 was written, with a byte of its own block |
| ParallelCopy.CopyExact | sys/src/cmd/fcp.c:202-213 | a copy that returns 0 equals the source if and only if every read inside a block gave the bytes at the front of the block |
| ParallelCopy.OneOwner | sys/src/cmd/fcp.c:223-234 | no two workers are handed one block and no byte is written twice |
| ParallelCopy.ShortReadWrong | sys/src/cmd/fcp.c:202-213 | two bytes read one at a time are copied as the first byte twice |
| ParallelCopy.Shared.Work | sys/src/cmd/fcp.c:191-221 | a worker left alone copies everything from the counter on |
| CopyOutcome.ReturnsZero | sys/src/cmd/fcp.c:161-187 | the copy returns 0 if and only if no read failed, no write was short and some rfork worked, and -1 otherwise |
| CopyOutcome.FineCopy | sys/src/cmd/fcp.c:151-221 | so with whole reads, complete writes and a worker what has returned is 0 and a true copy |
| CopyOutcome.CanFinish | sys/src/cmd/fcp.c:151-234 | every run can go on to the end of the copy, and with 0 and a true copy if nothing has failed yet |
| Factor.WheelSkips | sys/src/cmd/factor.c:7-14 | turning the wheel by one distance skips no divisor and reaches the next spoke |
| Factor.FirstDivisorPrime | sys/src/cmd/factor.c:78-85 | the first divisor met is prime |
| Factor.LeftoverPrime | sys/src/cmd/factor.c:89-94 | what is left above one when d passes the root plus one is prime |
| Factor.DivideOut | sys/src/cmd/factor.c:81-85 | divides d out completely, printing it as often as it goes |
| Factor.PrimeFactors | sys/src/cmd/factor.c:48-96 | for every n >= 1 the loop ends and prints primes in order whose product is n |

## Left out

dc:

- Input and output bases other than ten, hexadecimal and octal output, big bases.
- Commands.Slash: k is 0..99, as the `k` command keeps it; macros, registers, arrays, shell escapes and the other commands are left out, with them the scale bookkeeping of `+`, `-`, `*`, `^` and `%`.
- DecimalScale.Removr: the decimals it cuts off (irem) are not modelled, since only `%` uses them.
- Freeing and reuse of blocks, allocation statistics and failing malloc. A new block holds cells of which nothing is promised.
- DecimalText.Tenot: negative numbers are printed with a sign that the reader spells differently; the round trip is for positive numbers.
- DecimalText.Readin: the end of the input inside a numeral gives no number; the program exits there.

aan:

- AanProof.KeepsInv: reconnect and synchronize are one step with respect to the processing of acks, although the code sets netfd first (sys/src/cmd/aan.c:361); a send by the main loop is one step as well.
- AanModel: message numbers are unbounded; header packing, dialing, listening, alarms and log messages are left out. No liveness is claimed: AanRecovery.Recovery is about the steps it names, not that they come. Buffers are values, and the pool is their number.
- AanPeer.Peer.FromNet: the flag that ends the whole program is not modelled beyond the end of this process.

ed:

- The regular expressions, terminal and file input and output, signals, printing, and errors of the temporary file.
- GlobalCommand.RunEdit: a command list is a list of edits, which may depend on the round and on dot as it starts; which edits its text stands for, the marks of `k` in names[], and nested input are left out.
- GlobalCommand.SubstLine: the text a substitution makes is left out with the regular expressions, and so are the marks of `k`.
- LineStore.Store.GetMarked: reading stops at a zero within the line buffer; the code would run past the buffer otherwise.
- LineText.CopyLines: for a marked empty line at the very end of the store, what is read of it must end before the place where the first copy goes.
- LineArray.Lines.Append: a failing realloc is left out.

ar:

- Reading object files, formatting of headers, permissions, extraction, listing, and the matching of names that decides where a member goes; the symbols of a member and its place are given.
- Archiver.Arfile.Insert: the padding byte of an odd file copied in is whatever it is.
- Archiver.Ar.AddMember: armove's own failing dirfstat after the scan is left out, and so is `d` clearing allobj when the symbol table itself is deleted. The hash table of names is a set.
- ArchiveProof.TablesRead: offsets are four bytes, so it is stated for archives below 2^32 bytes.

fcp:

- ParallelCopy.CopyRight: a worker killed from outside the program is left out; so are attributes of the file and directories. It is stated for whole reads; ParallelCopy.CopyExact is for reads of any size.

factor:

- Factor.PrimeFactors: numbers are exact integers and the bound is the real root plus one; rounding, input and the layout of the output are left out.
