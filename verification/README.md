# Verified models of the SQLite shell and of a genetic portfolio search

The repository has two parts with logic of their own.  One is the command-line
shell of SQLite, a single file that carries several extensions with it.  The
other is a genetic algorithm that looks for a portfolio of ten stocks.  This
project models the parts of both that are hard to get right, in Dafny, and
proves what they are for.

| files | what they model |
|---|---|
| `Bits`, `Words`, `Keccak`, `Sponge`, `Sha3` | the SHA-3 engine: the unrolled in-place permutation, absorption with its word path, and the padding, against the definitions of FIPS 202 |
| `Sha3Query` | the byte stream that `sha3_query()` hashes, its decoder, and the loop that feeds it |
| `SqlQuote` | text printed as a nested `replace(replace('...'))`, with an evaluator for the SQL that is printed |
| `Calendar` | DOS dates and times of ZIP entries |
| `ZipFormat`, `ZipExtra`, `ZipDirectory`, `ZipReader` | records and directories of ZIP archives (PKWARE APPNOTE, sections 4.3.7, 4.3.12, 4.3.16 and 4.5.1) and how they are read, together with what is in the memory behind them |
| `ZipAggregate` | the `zipfile()` aggregate and its growing buffers |
| `ZipTransaction`, `ZipTable` | write transactions on an archive: on values, and as the linked list that the code keeps |
| `ByteFile`, `AppendVfs` | a database kept behind a foreign prefix, against a plain file |
| `Csv`, `CsvTable` | CSV output and import (RFC 4180, section 2) |
| `CString` | C strings as they are printed, and the tokenizer of dot-commands |
| `Glob`, `GlobDocs` | the recursive matcher of the test cases, against the language of a pattern, and when that is the documented language |
| `IdxHash` | a chained hash table with a second list through its entries, against its list of pairs |
| `GaVectors`, `GaLogic`, `GaPortfolio` | the genetic algorithm: selection, crossover, mutation and the generation loop under arbitrary draws; the index of diversification over the reals |

What the source changes in place is a class or an array here, and its loops are
loops.  Each such method is proved against a function of the values it works
on; the lemmas are about those functions.  The specifications that are not the
source's own are FIPS 202, down to its single bits in `Fips202Bits`, the
Gregorian calendar, the layouts of the APPNOTE, the SQL evaluator in module
`SqlText`, the plain file in `ByteFile`, the language of patterns in
`Glob.Matches`, the documented escapes in `CString.ESCAPES`, and the lists, maps
and multisets of the contracts.

Bytes are natural numbers below 256 and 64-bit words natural numbers below
2^64, with exclusive or and rotation defined on them.  C strings are sequences
without the final NUL.  A pointer that walks over a string is the sequence
that is left.  File handles are byte sequences that are filled with zeros when
they grow.  Errors and NULL results are `None` or a boolean, and allocation
succeeds except where a parameter says otherwise.

To verify everything: `dafny verify dfyconfig.toml`.

## What the proofs found

- The round trip of a time through a DOS date holds from 1980-01-01 up to
  2100-02-28 and, by accident, for the two seconds that all earlier times are
  mapped to.  The century correction is fixed, so a day is gained from
  2100-03-01 on.  The assertion at the end of `zipfileMtimeToDos` fails there,
  and also in the seven hours before 1980, because its constant is 1979-12-31
  17:00 (`Calendar.RoundTrip`, `Calendar.AssertionHoldsExactlyWhen`).
- `apndRead` does not stop at the end of the database.  A read that crosses it
  returns bytes of the mark, where a plain file would return zeros and report a
  short read (`AppendVfs.ReadsAgree` says exactly when the two agree).
- A prefix of fewer than 512 bytes that begins like an SQLite header is not an
  ordinary database when it is opened, but is taken for one when it is opened
  again after the first write (`AppendVfs.ReopenRecovers`,
  `AppendVfs.HeaderWithoutNul`).
- The size of an appended database is negative before its first write
  (`AppendVfs.ApndFile.FileSize`).
- `APND_MAX_SIZE` is documented as a bound on prefix, database and mark; the
  code compares only the database with it.  A write that is accepted keeps to
  the documented bound exactly if prefix, mark and the larger of the old and
  the new end of the database fit in it (`AppendVfs.LimitExactlyWhen`), and
  behind every prefix some write does not (`AppendVfs.LimitIsExceeded`).
- `sha3_query()` hashes integers and floating point numbers most significant
  byte first; its comment says little-endian.  The two agree exactly on numbers
  whose eight bytes read the same both ways (`Sha3Query.DocumentedExactlyWhen`),
  so not on 1 (`Sha3Query.IntegersAreBigEndian`).
- A `#` in a pattern is documented to match any sequence of digits, and white
  space any white space.  The code takes all digits, or all white space, that
  there are and gives none back; and right behind a star, or question marks
  behind a star, it reads `#` and white space as themselves.  It keeps to its
  documentation exactly on the patterns without the latter in which nothing
  stands behind a `#`, or white space, that can begin with a digit, or a blank,
  and on the patterns that no text can match (`GlobDocs.DocumentedExactlyWhen`);
  so `#1` does not match 11 (`GlobDocs.NumberBeforeDigit`).
- `resolve_backslashes` is documented to turn `\s` into a space; it has no such
  case and leaves the `s`.  It keeps to its documentation exactly on strings
  without that escape (`CString.DocumentedExactlyWhen`, `CString.BlankEscape`).
- The scratch buffer of a ZIP transaction has 65536 bytes.  The header of a new
  entry fits in it exactly for names up to 65497 bytes and its directory record
  up to 65481, although names may have 65535; one of 65500 bytes runs over the
  end (`ZipTransaction.NameInBuffer`, `ZipTransaction.LongNameOverruns`).  An
  old entry fits exactly if its record has no more than 65536 bytes
  (`ZipTransaction.OldRecordInBuffer`).  The methods of `ZipTable` require that
  what they put there fits.
- The size of a buffer of the `zipfile()` aggregate is doubled in a signed
  integer.  As bytes are added to n others, this does not overflow exactly if
  they fit in what is allocated, or n is 0 and they are no more than 2^30, or n
  is less than 2^30 and all together are no more than the last doubling of 2n
  below 2^31 (`ZipAggregate.GrowthBound`); so 2^29 + 2 bytes cannot be added to
  2^29 + 1 in a full buffer (`ZipAggregate.GrowthOverflows`).
- `zipfileScanExtra` looks for a timestamp beyond the extra data.  It stops only
  when a whole field has taken it past the end, and reads a header, a flag and a
  time wherever it stands.  After the four bytes 55 54 05 00 the time is taken
  from what the memory holds behind the record (`ZipExtra.ShortExtra`).  The
  time of an entry depends on that memory exactly if the header of a field that
  may be a timestamp is cut off by the end of the record, or the flag or the
  announced time of a timestamp is (`ZipExtra.ScanExactlyWhen`); an archive loads
  the same into every memory exactly if that is so of none of its entries
  (`ZipReader.LoadsAlikeExactlyWhen`), and after a transaction it reads back as
  what was written exactly if it is so of none of the old entries that are left
  (`ZipTransaction.TransactionKeepsArchive`).
- The program announces a thousand generations; there are at most forty, the
  first included (`GaLogic.Evolve`).

## Model

| member | source | states |
|---|---|---|
| `Words.XorAt` | sqlite-snapshot-201808271713/shell.c:1432-1436 | exclusive or adds the words bit by bit |
| `Words.AndNotAt` | sqlite-snapshot-201808271713/shell.c:1448-1453 | bit k of ~a & b is 1 exactly if that of a is 0 and that of b is 1 |
| `Words.RotAt` | sqlite-snapshot-201808271713/shell.c:1444-1447 | a rotation by n moves bit k to place k + n modulo 64 |
| `Fips202Bits.ThetaAt` | sqlite-snapshot-201808271713/shell.c:1432-1441 | theta adds to each bit the sums of the two columns that section 3.2.1 of FIPS 202 names |
| `Fips202Bits.RhoAt` | sqlite-snapshot-201808271713/shell.c:1443-1447 | rho moves each bit of a lane on by the offset of the lane |
| `Fips202Bits.PiAt` | sqlite-snapshot-201808271713/shell.c:1443-1447 | pi takes lane (x + 3y, x) to (x, y) |
| `Fips202Bits.ChiAt` | sqlite-snapshot-201808271713/shell.c:1448-1453 | chi changes a bit exactly where the next one of its row is 0 and the one after that is 1 |
| `Keccak.FirstRound` | sqlite-snapshot-201808271713/shell.c:1432-1497 | the first unrolled round, done in place on the 25 words, is one round of FIPS 202 on the lanes as they then lie in the rows |
| `Keccak.SecondRound` | sqlite-snapshot-201808271713/shell.c:1499-1564 | the same for the second unrolled round, whose rows have moved once |
| `Keccak.ThirdRound` | sqlite-snapshot-201808271713/shell.c:1566-1631 | the same for the third unrolled round, whose rows have moved twice |
| `Keccak.FourthRound` | sqlite-snapshot-201808271713/shell.c:1633-1698 | the same for the fourth unrolled round |
| `Keccak.RoundLane` | sqlite-snapshot-201808271713/shell.c:1442-1497 | theta, rho, pi, chi and iota, written as the five separate maps of FIPS 202, give for each lane what the merged assignments compute |
| `Keccak.FourRoundsRestoreRows` | sqlite-snapshot-201808271713/shell.c:1406-1430 | a lane that moves from row y to row x+2y in every round is back in its own row after four |
| `Keccak.WholePass` | sqlite-snapshot-201808271713/shell.c:1431-1699 | after four rounds the array is again in its logical order |
| `Keccak.KeccakF1600Step` | sqlite-snapshot-201808271713/shell.c:1385-1700 | the whole loop is the permutation Keccak-f[1600] of the 25 words, and no other word changes |
| `KeccakTables.OffsetsFollowTheWalk` | sqlite-snapshot-201808271713/shell.c:1442-1495 | the 24 rotation counts are those of the walk over the lanes that section 3.2.2 of FIPS 202 prescribes |
| `KeccakTables.ConstantsFollowTheRegister` | sqlite-snapshot-201808271713/shell.c:1390-1403 | the 24 round constants are those of the shift register of section 3.2.5 of FIPS 202 |
| `Sponge.PaddingIsStandard` | sqlite-snapshot-201808271713/shell.c:1775-1787 | the bytes that end a message are, as bits, the suffix 01 and pad10*1, and fill the last block |
| `Sponge.FeedAllIsAbsorb` | sqlite-snapshot-201808271713/shell.c:1736-1768 | feeding bytes one by one is absorbing them block by block |
| `Sponge.FeedAllConcat` | sqlite-snapshot-201808271713/shell.c:1736-1768 | feeding two pieces one after the other is feeding them together, so the split into calls does not matter |
| `Sponge.FeedKeepsCount` | sqlite-snapshot-201808271713/shell.c:1736-1768 | the number of bytes loaded is the number fed modulo the rate, and less than the rate between calls |
| `Sha3Engine.SHA3Context.constructor` | sqlite-snapshot-201808271713/shell.c:1707-1730 | the context starts as an empty sponge with the rate of the size that was asked for |
| `Sha3Engine.SHA3Context.AddWord` | sqlite-snapshot-201808271713/shell.c:1743-1752 | adding eight bytes as one 64-bit word is feeding the eight bytes |
| `Sha3Engine.SHA3Context.AddByte` | sqlite-snapshot-201808271713/shell.c:1754-1767 | a byte goes to its place under either byte order and starts the permutation when the block is full |
| `Sha3Engine.SHA3Context.Update` | sqlite-snapshot-201808271713/shell.c:1736-1768 | either path, under any alignment and byte order, feeds the bytes to the sponge and nothing else |
| `Sha3Engine.SHA3Context.Final` | sqlite-snapshot-201808271713/shell.c:1775-1791 | the padding by jumping to the last byte is the standard padding, and the overlapping copy returns the bytes of the state in order |
| `Sha3Engine.FinalPaddings` | sqlite-snapshot-201808271713/shell.c:1777-1787 | skipping to the last byte of a block is the same as feeding the zeros in between |
| `Sha3Engine.MaskStaysBelow` | sqlite-snapshot-201808271713/shell.c:1788-1790 | the copy reads only below the rate, so it never reads what it has written |
| `Sha3Engine.Hash` | sqlite-snapshot-201808271713/shell.c:1804-1831 | any message in any pieces, any alignment and either byte order: the result is the SHA-3 digest of FIPS 202, with twice the digest as capacity |
| `Sha3Query.QueryDigest` | sqlite-snapshot-201808271713/shell.c:1883-1986 | the digest is that of the whole stream of statements, rows and values |
| `Sha3Query.TaggedWord` | sqlite-snapshot-201808271713/shell.c:1943-1955 | the loop stores the eight bytes of a number behind its tag, most significant byte first |
| `Sha3Query.TokenReads` | sqlite-snapshot-201808271713/shell.c:1836-1849 | each segment can be told from what follows it: its tag and length determine where it ends |
| `Sha3Query.DecimalDigits` | sqlite-snapshot-201808271713/shell.c:1836-1849 | a length is written in decimal digits, at least one, with no zero in front |
| `Sha3Query.DecimalValue` | sqlite-snapshot-201808271713/shell.c:1836-1849 | and these digits have the value of the length |
| `Sha3Query.StreamDecodes` | sqlite-snapshot-201808271713/shell.c:1852-1881 | a decoder driven by the tags recovers statements, rows and typed values from the stream |
| `Sha3Query.SameStream` | sqlite-snapshot-201808271713/shell.c:1852-1881 | different results give different streams |
| `Sha3Query.IntegersAreBigEndian` | sqlite-snapshot-201808271713/shell.c:1943-1955 | the integer 1 is hashed most significant byte first, where the comment of the source has the bytes the other way round |
| `Sha3Query.DocumentedExactlyWhen` | sqlite-snapshot-201808271713/shell.c:1860-1876 | a value is hashed as its comment says exactly if it is not a number, or one whose bytes read the same both ways |
| `SqlQuote.UnusedString` | sqlite-snapshot-201808271713/shell.c:8836-8848 | terminates and returns the first of the candidates, in their order, that does not occur in the text; at most one generated candidate more than the text has characters is tried |
| `SqlQuote.CandidatesArePrefixFree` | sqlite-snapshot-201808271713/shell.c:8844-8847 | no generated candidate is a prefix of another |
| `SqlQuote.TokensDoNotOverlap` | sqlite-snapshot-201808271713/shell.c:8836-8848 | no token begins inside another token, nor the LF token inside the CR token or the other way round |
| `SqlQuote.TokenStartsAtItsCharacter` | sqlite-snapshot-201808271713/shell.c:8920-8940 | in the substituted text a token stands only where a control character was replaced, never across a boundary |
| `SqlQuote.ReplaceUndoes` | sqlite-snapshot-201808271713/shell.c:8942-8947 | replace(), scanning from left to right, turns exactly the substituted tokens back and leaves the other kind alone |
| `SqlQuote.QuotedTextMeansItself` | sqlite-snapshot-201808271713/shell.c:8894-8946 | the nested replace() expression evaluates to the original text |
| `SqlQuote.PrintContents` | sqlite-snapshot-201808271713/shell.c:8920-8940 | the loop prints the text with quotes doubled and control characters replaced by their tokens |
| `SqlQuote.OutputQuotedEscapedString` | sqlite-snapshot-201808271713/shell.c:8894-8950 | for every text the printed expression evaluates to that text and contains neither CR nor LF |
| `Calendar.DateFields` | sqlite-snapshot-201808271713/shell.c:4784 | the three fields of the date word do not overlap |
| `Calendar.TimeFields` | sqlite-snapshot-201808271713/shell.c:4785 | the three fields of the time word do not overlap |
| `Calendar.CivilRanges` | sqlite-snapshot-201808271713/shell.c:4760-4778 | the day, month and year that are computed are in range, and stand for the day number that was given, or after 2100-02-28 for the day after it |
| `Calendar.CivilIsDate` | sqlite-snapshot-201808271713/shell.c:4760-4778 | the year, month and day that are computed are those of the Gregorian calendar, for every day that a 32-bit time can name |
| `Calendar.DosNames` | sqlite-snapshot-201808271713/shell.c:4757-4788 | from 1980 on the two words name the Gregorian date and, to two seconds, the time of day |
| `Calendar.RoundTripFrom1980` | sqlite-snapshot-201808271713/shell.c:4724-4795 | from 1980 on the time comes back with its last bit cleared, and a day late from 2100-03-01 on |
| `Calendar.RoundTripBefore1980` | sqlite-snapshot-201808271713/shell.c:4724-4795 | before 1980 every time becomes one and the same time |
| `Calendar.RoundTrip` | sqlite-snapshot-201808271713/shell.c:4724-4795 | the round trip gives t - t%2 exactly from 1980-01-01 up to 2100-02-28, and for the two seconds that all earlier times are mapped to |
| `Calendar.AssertionHoldsExactlyWhen` | sqlite-snapshot-201808271713/shell.c:4790-4794 | the assertion at the end of the conversion holds exactly for these times |
| `Calendar.AssertionFailsAt` | sqlite-snapshot-201808271713/shell.c:4790-4794 | two times at which it fails |
| `Fields.DecodeEncode` | sqlite-snapshot-201808271713/shell.c:4558-4604 | little-endian fields of any widths are read back as they were written |
| `Fields.EncodeDecode` | sqlite-snapshot-201808271713/shell.c:4558-4604 | and bytes that are read as fields are written back as they were |
| `ZipFormat.ReadWrittenCDS` | sqlite-snapshot-201808271713/shell.c:4606-4634 | a central directory record that was serialised is parsed as the same record |
| `ZipFormat.CdsLayout` | sqlite-snapshot-201808271713/shell.c:5748-5791 | every field of a directory record stands where section 4.3.12 of the APPNOTE puts it, behind the signature |
| `ZipFormat.LfhLayout` | sqlite-snapshot-201808271713/shell.c:5354-5374 | the same for the local header of section 4.3.7 |
| `ZipFormat.EocdLayout` | sqlite-snapshot-201808271713/shell.c:5724-5736 | the same for the end record of section 4.3.16 |
| `ZipFormat.WriteReadCDS` | sqlite-snapshot-201808271713/shell.c:4606-4634 | a record that was parsed is serialised as the same bytes |
| `ZipFormat.ReadWrittenLFH` | sqlite-snapshot-201808271713/shell.c:4640-4666 | a local file header that was serialised is parsed as the same header |
| `ZipFormat.ReadWrittenEOCD` | sqlite-snapshot-201808271713/shell.c:5724-5736 | an end record that was serialised is parsed as the same record |
| `ZipExtra.ScanExtra` | sqlite-snapshot-201808271713/shell.c:4681-4709 | the loop finds the time of the last timestamp field, in the extra data and whatever stands behind it in memory |
| `ZipExtra.InsideAgrees` | sqlite-snapshot-201808271713/shell.c:4681-4709 | it finds the same in every memory if no header that may be that of a timestamp is cut off, and no flag or announced time of a timestamp |
| `ZipExtra.Depends` | sqlite-snapshot-201808271713/shell.c:4681-4709 | otherwise there are two memories in which it finds different times |
| `ZipExtra.ScanExactlyWhen` | sqlite-snapshot-201808271713/shell.c:4681-4709 | so this condition is exactly when the time does not depend on the memory |
| `ZipExtra.ShortExtra` | sqlite-snapshot-201808271713/shell.c:4681-4709 | four bytes of extra data after which the time is read from the memory behind them |
| `ZipDirectory.TimestampScans` | sqlite-snapshot-201808271713/shell.c:4681-4709 | the time in the 0x5455 extra field is found again, whatever stands behind it |
| `ZipDirectory.WrittenEntryReads` | sqlite-snapshot-201808271713/shell.c:4808-4901 | an entry written to a directory is read as the same entry wherever it stands and whatever is in memory |
| `ZipDirectory.ReadEntryWrites` | sqlite-snapshot-201808271713/shell.c:5748-5791 | an entry that was read, with no NUL in its name, is written as the same bytes |
| `ZipDirectory.DirectoryReads` | sqlite-snapshot-201808271713/shell.c:5230-5249 | a directory of any length is loaded as its entries in order, whatever is in memory |
| `ZipDirectory.DirectoryWrites` | sqlite-snapshot-201808271713/shell.c:5748-5791 | a loaded directory, whose names hold no NUL, is written back byte for byte |
| `ZipDirectory.InsideReadsAlike` | sqlite-snapshot-201808271713/shell.c:5230-5249 | a directory whose times are all inside their records is loaded the same into every memory |
| `ZipDirectory.ReadsOtherwise` | sqlite-snapshot-201808271713/shell.c:5230-5249 | and one with a time that is not is loaded otherwise into some other memory |
| `ZipReader.ReadEOCD` | sqlite-snapshot-201808271713/shell.c:5143-5199 | the backward loop finds the last signature that can begin an end record in the last 64 kB, and reads the fields behind it |
| `ZipReader.EndRecordIsFound` | sqlite-snapshot-201808271713/shell.c:5143-5199 | whatever bytes precede it, the search stops at the end record that ends the file |
| `ZipReader.CommentIsPassed` | sqlite-snapshot-201808271713/shell.c:5143-5199 | also in front of an archive comment, as long as no signature begins in that |
| `ZipReader.ImageLoads` | sqlite-snapshot-201808271713/shell.c:5143-5249 | a body, its directory and the end record load as the entries of the directory, whatever is in memory |
| `ZipReader.LoadsAlikeExactlyWhen` | sqlite-snapshot-201808271713/shell.c:5230-5249 | an archive loads the same into every memory exactly if all its times are inside their records |
| `ZipAggregate.ZipfileBuffer.Grow` | sqlite-snapshot-201808271713/shell.c:5915-5930 | growing keeps the contents and makes the room that was asked for, by doublings none of which overflows a signed int |
| `ZipAggregate.GrowthBound` | sqlite-snapshot-201808271713/shell.c:5915-5920 | exactly when the doubling does not overflow, in terms of the bytes that are there, those that are allocated and those that are to come |
| `ZipAggregate.GrowthOverflows` | sqlite-snapshot-201808271713/shell.c:5915-5920 | two sums between 2^30 and 2^31 bytes, of which the first can be reached by doubling and the second cannot |
| `ZipAggregate.ZipfileBuffer.Append` | sqlite-snapshot-201808271713/shell.c:6079-6092 | appending adds the bytes behind the contents |
| `ZipAggregate.DecidedItem` | sqlite-snapshot-201808271713/shell.c:5975-6060 | exactly which rows are refused; and of the others, from the arguments, what is stored: the path with one slash at its end for a directory, the data as it is or deflated as the method says, and deflated unasked only where that is shorter, size, checksum, mode and time |
| `ZipAggregate.ZipfileCtx.Store` | sqlite-snapshot-201808271713/shell.c:6063-6095 | header, data and directory record of an entry go behind what is there, with the offset of the header |
| `ZipAggregate.SmallPartsHaveRoom` | sqlite-snapshot-201808271713/shell.c:5915-6095 | no buffer of the aggregate overflows as long as neither part of the image is longer than 2^30 bytes |
| `ZipAggregate.ZipfileCtx.Step` | sqlite-snapshot-201808271713/shell.c:5938-6108 | a row is added, or refused without a trace |
| `ZipAggregate.ZipfileCtx.Final` | sqlite-snapshot-201808271713/shell.c:6113-6142 | body, directory and end record are put together; without rows there is no image |
| `ZipAggregate.AggregateRoundTrip` | sqlite-snapshot-201808271713/shell.c:5938-6142 | the image is read back as the entries in order: name, mode, method, checksum, sizes, time, and the date as the Gregorian calendar has it; the local header of each says the same, its data stand behind it, and the end record counts and locates the directory |
| `ZipAggregate.Zipfile` | sqlite-snapshot-201808271713/shell.c:5938-6142 | the same for whole runs of the aggregate from its first row to its result, in terms of the arguments |
| `ZipTable.ZipfileTab.AppendData` | sqlite-snapshot-201808271713/shell.c:4539-4553 | bytes go to the end of the file, and the current size follows |
| `ZipTable.ZipfileTab.AddEntry` | sqlite-snapshot-201808271713/shell.c:5207-5228 | a new entry becomes the last of the list |
| `ZipTable.ZipfileTab.RemoveEntryFromList` | sqlite-snapshot-201808271713/shell.c:5526-5533 | the list loses that entry and no other, and stays well formed when it is not the last |
| `ZipTable.ZipfileTab.LoadEntries` | sqlite-snapshot-201808271713/shell.c:5230-5249 | the list is built from the directory of the file, in its order, with the times that the memory at hand makes of it |
| `ZipTable.ZipfileTab.Begin` | sqlite-snapshot-201808271713/shell.c:5460-5487 | the transaction starts from the directory, or not at all if that cannot be read |
| `ZipTable.ZipfileTab.FindPath` | sqlite-snapshot-201808271713/shell.c:5656-5680 | the first entry with the same path up to one slash is found |
| `ZipTable.ZipfileTab.InsertRow` | sqlite-snapshot-201808271713/shell.c:5596-5722 | an insert does on the list and on the file what it does on values, and succeeds except on a refused row and on a known path under a conflict handling other than replace and ignore |
| `ZipTable.ZipfileTab.Update` | sqlite-snapshot-201808271713/shell.c:5538-5722 | the same, and it opens a transaction where there is none |
| `ZipTable.ZipfileTab.AppendDirectory` | sqlite-snapshot-201808271713/shell.c:5800-5807 | the loop over the list appends its directory |
| `ZipTable.ZipfileTab.Commit` | sqlite-snapshot-201808271713/shell.c:5793-5821 | the directory and its end record go behind the data, and the transaction is over |
| `ZipTable.Transaction` | sqlite-snapshot-201808271713/shell.c:5460-5821 | a whole transaction from the file before to the file after: its bytes, what they are read as, in which order, with which records unchanged, and what stands under each path |
| `ZipTransaction.InsertRefinesMap` | sqlite-snapshot-201808271713/shell.c:5656-5716 | on the map from paths to entries an insert adds, replaces or does nothing |
| `ZipTransaction.SameKeyExactlyWhen` | sqlite-snapshot-201808271713/shell.c:5448-5460 | two paths are the same for the search exactly if they are equal up to one slash at the end |
| `ZipTransaction.DecidedRow` | sqlite-snapshot-201808271713/shell.c:5586-5654 | exactly which rows are refused; and of the others, from their columns, what is stored: path, data, method, checksum, size, mode and time |
| `ZipTransaction.MadeTells` | sqlite-snapshot-201808271713/shell.c:5354-5405 | what a new entry says, and its local header and the data behind that, is what its row gave |
| `ZipTransaction.InsertAtKey` | sqlite-snapshot-201808271713/shell.c:5656-5716 | the same path by path: an insert adds its row under a new path and, only if it replaces, under a known one, and touches no other |
| `ZipTransaction.KeysAfterRun` | sqlite-snapshot-201808271713/shell.c:5538-5722 | after a run the paths are the old ones and those that some insert adds |
| `ZipTransaction.OldEntryStays` | sqlite-snapshot-201808271713/shell.c:5656-5716 | an old entry stays, as it was, as long as no insert replaces it |
| `ZipTransaction.WinnerIsThere` | sqlite-snapshot-201808271713/shell.c:5656-5716 | otherwise the entry is that of the last insert that replaces or, where there was none and none replaces, of the first that adds the path |
| `ZipTransaction.NewEntryHasWinner` | sqlite-snapshot-201808271713/shell.c:5656-5716 | and every entry is either an old one that stayed or that of such an insert |
| `ZipTransaction.WinnerIsUnique` | sqlite-snapshot-201808271713/shell.c:5656-5716 | there is at most one such insert |
| `ZipTransaction.RunSettles` | sqlite-snapshot-201808271713/shell.c:5538-5722 | so the run determines, for every path, which entry is under it |
| `ZipTransaction.InsertKeepsDistinct` | sqlite-snapshot-201808271713/shell.c:5656-5716 | no two entries ever share a path |
| `ZipTransaction.InsertKeepsEntries` | sqlite-snapshot-201808271713/shell.c:5682-5703 | every entry of the list can be written and points to its header in the file, and is read back if its time is inside its record |
| `ZipTransaction.InsertKeepsOrder` | sqlite-snapshot-201808271713/shell.c:5682-5716 | old entries stay in front in their order, and new ones stand behind them in the order of their insertion |
| `ZipTransaction.RunKeeps` | sqlite-snapshot-201808271713/shell.c:5538-5722 | that, distinct paths and this order hold after every run of inserts |
| `ZipTransaction.CommitReloads` | sqlite-snapshot-201808271713/shell.c:5793-5821 | what was in the file is still there, the file loads as the list, into every memory, exactly if all times of the list are inside their records, and the end record counts and locates the directory |
| `ZipTransaction.RecordsAreCopied` | sqlite-snapshot-201808271713/shell.c:5748-5807 | the directory record of an old entry that is left has the same bytes in the new directory as it had in the old one |
| `ZipTransaction.NameInBuffer` | sqlite-snapshot-201808271713/shell.c:5354-5405 | the lengths of a name up to which its header and its directory record fit the scratch buffer, both ways |
| `ZipTransaction.LongNameOverruns` | sqlite-snapshot-201808271713/shell.c:5387-5396 | a name within the limits of the format for which neither does |
| `ZipTransaction.OldRecordInBuffer` | sqlite-snapshot-201808271713/shell.c:5803-5805 | an old record fits the scratch buffer exactly if it has no more bytes than that |
| `ZipTransaction.TransactionKeepsArchive` | sqlite-snapshot-201808271713/shell.c:5460-5821 | after any run of inserts and the commit the old bytes are unchanged; the directory holds the old entries that are left, identical and with the same record bytes, followed by the new ones in the order of their insertion, with distinct paths; the new ones, their headers and their data are what the rows gave; under each path stands what the run determines; and the file reads back as this, into every memory, exactly if the times of the old entries that are left are inside their records |
| `AppendVfs.MarkReads` | sqlite-snapshot-201808271713/shell.c:3659-3667 | the offset in a mark that was written is read back |
| `AppendVfs.FindMark` | sqlite-snapshot-201808271713/shell.c:3855-3869 | the loop reads the offset in the last 25 bytes, without its sign bit, or finds no mark |
| `AppendVfs.OrdinaryExactlyWhen` | sqlite-snapshot-201808271713/shell.c:3840-3848 | which files are ordinary databases: those of at least 512 bytes that begin with the header text and its NUL |
| `AppendVfs.OpensAtMark` | sqlite-snapshot-201808271713/shell.c:3900-3906 | any other file with a mark is opened at the offset in it |
| `AppendVfs.OpensBehind` | sqlite-snapshot-201808271713/shell.c:3906-3914 | any other file without one is opened at its next page, or refused where none may be created |
| `AppendVfs.ApndFile.constructor` | sqlite-snapshot-201808271713/shell.c:3874-3918 | an opened file stands for the bytes between prefix and mark, or for an empty database after the prefix |
| `AppendVfs.ApndFile.WriteMark` | sqlite-snapshot-201808271713/shell.c:3659-3667 | the mark is written at iMark |
| `AppendVfs.ApndFile.MoveMark` | sqlite-snapshot-201808271713/shell.c:3683-3694 | after data that ends behind iMark the mark is written right behind the data, unless the one at the end of the file is still whole |
| `AppendVfs.ApndFile.Write` | sqlite-snapshot-201808271713/shell.c:3672-3695 | a write is a write to the database, the mark moves behind it and the prefix stays; it is refused exactly from the size limit on |
| `AppendVfs.LimitExactlyWhen` | sqlite-snapshot-201808271713/shell.c:3518-3522 | a write keeps to the documented limit on prefix, database and mark exactly if it is refused or they fit together |
| `AppendVfs.LimitIsExceeded` | sqlite-snapshot-201808271713/shell.c:3681 | for every prefix and database below the limit there is a write that the code accepts and that does not |
| `AppendVfs.ApndFile.Truncate` | sqlite-snapshot-201808271713/shell.c:3700-3710 | the database is cut and the mark follows it |
| `AppendVfs.ApndFile.Read` | sqlite-snapshot-201808271713/shell.c:3645-3654 | a read sees the database followed by the mark |
| `AppendVfs.ApndFile.FileSize` | sqlite-snapshot-201808271713/shell.c:3723-3732 | the size is that of the database once there is a mark, and negative before |
| `AppendVfs.ApndFile.Reopen` | sqlite-snapshot-201808271713/shell.c:3874-3918 | a file closed and opened again stands for the same database at the same offset |
| `AppendVfs.ReadsAgree` | sqlite-snapshot-201808271713/shell.c:3645-3654 | a read agrees with a plain file exactly when it ends in the database, or runs past the end of the file from behind the last byte of the mark that is not zero |
| `AppendVfs.EquallyLoud` | sqlite-snapshot-201808271713/shell.c:3645-3667 | that byte is the same one for every mark with the same offset, whatever its sign bit |
| `AppendVfs.ReopenRecovers` | sqlite-snapshot-201808271713/shell.c:3840-3918 | a file that had no mark is recovered on opening exactly when it does not begin like an ordinary database |
| `AppendVfs.HeaderWithoutNul` | sqlite-snapshot-201808271713/shell.c:3840-3848 | a prefix for which it is not |
| `AppendVfs.Run` | sqlite-snapshot-201808271713/shell.c:3645-3918 | over every run of writes, truncates, reads and reopenings, with the reads and reopenings for which this is possible at all, the database behaves like a plain file, the prefix never changes, and the mark is found at the end |
| `Csv.OutputCsv` | sqlite-snapshot-201808271713/shell.c:9047-9073 | a term is printed bare exactly if it is not empty and all its bytes are graphic characters other than quotes and the separator |
| `Csv.ImportCtx.ReadQuoted` | sqlite-snapshot-201808271713/shell.c:11462-11498 | the loop takes a quoted field up to the quote that closes it, with doubled quotes undone, and says what ended the field and on which line |
| `Csv.ImportCtx.DropQuote` | sqlite-snapshot-201808271713/shell.c:11481 | the text is cut at its last quote |
| `Csv.ImportCtx.ReadOneField` | sqlite-snapshot-201808271713/shell.c:11452-11528 | one field is read, with what ended it and the line number, and a byte order mark is skipped once |
| `CsvTable.FieldCounts` | sqlite-snapshot-201808271713/shell.c:11452-11528 | whatever is read, the line number grows by the line ends that are passed |
| `CsvTable.QuotedFieldReads` | sqlite-snapshot-201808271713/shell.c:11462-11498 | a quoted text is read back whatever it is, whether it ends at the separator, at LF, at CR LF or at the end of the file |
| `CsvTable.PlainFieldReads` | sqlite-snapshot-201808271713/shell.c:11499-11528 | a text without quotes is read up to each of these ends |
| `CsvTable.TwoFieldsRead` | sqlite-snapshot-201808271713/shell.c:11452-11528 | a line of two fields, byte by byte |
| `CsvTable.EndsAtEof` | sqlite-snapshot-201808271713/shell.c:11452-11528 | a field that is ended by the end of the file leaves nothing to read |
| `CsvTable.TermReads` | sqlite-snapshot-201808271713/shell.c:9047-9073 | every term is read back as it was at each of the four ends, and cTerm says what ended it |
| `CsvTable.ReadColumns` | sqlite-snapshot-201808271713/shell.c:13747-13768 | a row takes one field per column, NULL for each that is missing, and there is no row at the end of the file |
| `CsvTable.SkipExtras` | sqlite-snapshot-201808271713/shell.c:13769-13777 | fields beyond the last column are read up to the end of the row and dropped |
| `CsvTable.Import` | sqlite-snapshot-201808271713/shell.c:13745-13786 | for any input the loop inserts the rows that its fields make up, reads the whole file, and has then counted its line ends |
| `CsvTable.RowReads` | sqlite-snapshot-201808271713/shell.c:9499-9515 | a row that was written is read as the same values and ends at its line end |
| `CsvTable.TableReads` | sqlite-snapshot-201808271713/shell.c:9499-9515 | a table that the shell writes as CSV is imported as the same table |
| `CString.OutputCString` | sqlite-snapshot-201808271713/shell.c:8955-8981 | the loop prints every byte in its escaped form between quotes |
| `CString.EscapedForm` | sqlite-snapshot-201808271713/shell.c:8955-8981 | which bytes are printed as they are, which as a letter behind a backslash, and that three octal digits have the value of the byte |
| `CString.ResolveUndoesEscape` | sqlite-snapshot-201808271713/shell.c:11273-11315 | resolving undoes escaping |
| `CString.ReadUnit` | sqlite-snapshot-201808271713/shell.c:11277-11311 | one escape is read, of up to three octal digits |
| `CString.Shift` | sqlite-snapshot-201808271713/shell.c:11277-11313 | the rewriting in place never gets ahead of the reading |
| `CString.ResolveBackslashes` | sqlite-snapshot-201808271713/shell.c:11273-11315 | the string is resolved where it stands, and nothing else changes |
| `CString.DocumentedExactlyWhen` | sqlite-snapshot-201808271713/shell.c:11255-11315 | a string is resolved as the documented table of escapes has it exactly if none of its escapes is the one for a space |
| `CString.BlankEscape` | sqlite-snapshot-201808271713/shell.c:11267 | that escape is documented to be a space and is resolved to its letter |
| `CString.NextToken` | sqlite-snapshot-201808271713/shell.c:13126-13145 | a token is cut off, resolved in its place, and the rest of the line is intact |
| `CString.Tokenize` | sqlite-snapshot-201808271713/shell.c:13126-13146 | every argument is, when the loop ends, the token of its number |
| `CString.PrintedTokenReads` | sqlite-snapshot-201808271713/shell.c:13129-13139 | a printed string is one token, whatever follows it |
| `CString.ApostrophesEnclose` | sqlite-snapshot-201808271713/shell.c:13129-13139 | a text between apostrophes is one token, as it is |
| `CString.BlanksSeparate` | sqlite-snapshot-201808271713/shell.c:13140-13145 | a text without white space is one token up to the next blank, with its escapes resolved |
| `CString.ListReads` | sqlite-snapshot-201808271713/shell.c:8955-8981 | a printed list is read as the same list, up to the limit of 50 arguments |
| `CString.TokenizeList` | sqlite-snapshot-201808271713/shell.c:13126-13146 | a line with a printed list, tokenised in place: argument k is string k of the list |
| `Glob.StarThenAny` | sqlite-snapshot-201808271713/shell.c:11973-11975 | a question mark after a star may come before it |
| `Glob.MatchBracket` | sqlite-snapshot-201808271713/shell.c:11994-12022 | the loop over a class decides membership, and finds where the class ends |
| `Glob.MatchStar` | sqlite-snapshot-201808271713/shell.c:11972-11991 | both strategies for what follows a star decide the language |
| `Glob.MatchNumber` | sqlite-snapshot-201808271713/shell.c:12023-12027 | a number with an optional sign is taken as a whole |
| `Glob.TestcaseGlob` | sqlite-snapshot-201808271713/shell.c:11962-12034 | terminates and accepts exactly the texts of the language of the pattern, up to white space at their end |
| `Glob.LooseIsUpToBlanks` | sqlite-snapshot-201808271713/shell.c:12032-12033 | that is: exactly the texts that are in the language once some white space at their end is taken off |
| `Glob.NumbersAreTakenWhole` | sqlite-snapshot-201808271713/shell.c:12023-12027 | the pattern #1 does not accept 11 |
| `GlobDocs.MatchesMeans` | sqlite-snapshot-201808271713/shell.c:11962-12034 | what the code accepts is in the documented language of the items that it reads |
| `GlobDocs.MeansMatches` | sqlite-snapshot-201808271713/shell.c:11939-12034 | the converse, where nothing behind a number or white space can begin like it |
| `GlobDocs.NotApart` | sqlite-snapshot-201808271713/shell.c:12023-12027 | and where something can, a text that is documented to match and does not |
| `GlobDocs.ReadAsDocumented` | sqlite-snapshot-201808271713/shell.c:11972-11991 | a pattern is read otherwise than documented exactly if a special character right behind a star stands for itself |
| `GlobDocs.ReadOtherwise` | sqlite-snapshot-201808271713/shell.c:11972-11991 | and where it is, again a text that is documented to match and does not |
| `GlobDocs.DocumentedExactlyWhen` | sqlite-snapshot-201808271713/shell.c:11939-12034 | so the code accepts the documented language of a pattern exactly where neither is the case, or where that language is empty |
| `GlobDocs.NumberBeforeDigit` | sqlite-snapshot-201808271713/shell.c:11953-11954 | the documentation promises that #1 matches 11 |
| `IdxHashTable.HashString` | sqlite-snapshot-201808271713/shell.c:6691-6698 | the loop computes nine times the hash plus the byte, in 32 bits |
| `IdxHashTable.IdxHash.Find` | sqlite-snapshot-201808271713/shell.c:6742-6757 | the chain of the bucket leads to the entry with the key, if there is one |
| `IdxHashTable.IdxHash.Search` | sqlite-snapshot-201808271713/shell.c:6762-6766 | the value under the key in the list of pairs, or NULL |
| `IdxHashTable.IdxHash.Add` | sqlite-snapshot-201808271713/shell.c:6705-6736 | a new key goes to the front of the list and of its chain; a known one changes nothing |
| `IdxHashTable.IdxHash.Clear` | sqlite-snapshot-201808271713/shell.c:6673-6685 | every entry is freed exactly once, and the table is empty |
| `IdxHashTable.Perform` | sqlite-snapshot-201808271713/shell.c:6666-6736 | the table follows its list of pairs over every run |
| `IdxHashTable.KeysStayDistinct` | sqlite-snapshot-201808271713/shell.c:6705-6736 | no key is in the table twice |
| `IdxHashTable.FirstAddWins` | sqlite-snapshot-201808271713/shell.c:6700-6736 | a lookup gives the value that was added first since the last clear |
| `IdxHashTable.PresentWasAdded` | sqlite-snapshot-201808271713/shell.c:6705-6757 | and a key that is found was added and not cleared since |
| `GaVectors.Minus` | GAPortfolioSelection_PC/GAPortfolioSelection_PC/Utility.h:80-91 | the elements of one vector that are not in the other, in order |
| `GaVectors.Plus` | GAPortfolioSelection_PC/GAPortfolioSelection_PC/Utility.h:93-104 | one vector and behind it what the other has in addition |
| `GaVectors.DifferenceCounts` | GAPortfolioSelection_PC/GAPortfolioSelection_PC/Utility.h:80-91 | a difference keeps or drops all copies of an element |
| `GaLogic.GetRandomSymbols` | GAPortfolioSelection_PC/GAPortfolioSelection_PC/GALogic.h:55-71 | ten different symbols of the universe, or none exactly if the draws do not hold ten |
| `GaLogic.CollectedExactlyWhen` | GAPortfolioSelection_PC/GAPortfolioSelection_PC/GALogic.h:61-69 | drawing until there are n different symbols fails exactly if the draws do not hold n |
| `GaLogic.GetFirstGeneration` | GAPortfolioSelection_PC/GAPortfolioSelection_PC/GALogic.h:105-119 | a hundred portfolios of ten different symbols, or none exactly if the draws do not last for a hundred |
| `GaLogic.MutateOne` | GAPortfolioSelection_PC/GAPortfolioSelection_PC/GALogic.h:132-141 | one symbol is exchanged, at the place that the next draw gives, for the first one drawn that was not there; none exactly if the draws end before |
| `GaLogic.Mutate` | GAPortfolioSelection_PC/GAPortfolioSelection_PC/GALogic.h:126-145 | the population stays one of ten different symbols each, and each portfolio changes in at most one place; it fails exactly if the draws do not last for those that are hit |
| `GaLogic.CrossoverShares` | GAPortfolioSelection_PC/GAPortfolioSelection_PC/GALogic.h:152-183 | the children have together what their parents had together, both have what the parents had in common, and neither has a symbol twice |
| `GaLogic.Crossover` | GAPortfolioSelection_PC/GAPortfolioSelection_PC/GALogic.h:152-183 | the code shares the symbols out in that way, whatever is drawn; it fails exactly if the draws do not hold the different symbols that one child needs |
| `GaLogic.CrossoverNeverStuck` | GAPortfolioSelection_PC/GAPortfolioSelection_PC/GALogic.h:166-176 | as long as symbols are missing one can be drawn |
| `GaLogic.AnotherSymbol` | GAPortfolioSelection_PC/GAPortfolioSelection_PC/GALogic.h:61-69 | as long as fewer symbols are taken than there are one can be drawn |
| `GaLogic.Tokens` | GAPortfolioSelection_PC/GAPortfolioSelection_PC/GALogic.h:192-208 | 98 tokens with the quotas 2 and 1 |
| `GaLogic.Selection` | GAPortfolioSelection_PC/GAPortfolioSelection_PC/GALogic.h:190-228 | 49 pairs that use up the quotas exactly, the first 48 of different members, as the draws give them; none exactly if the draws do not give 48 |
| `GaLogic.SelectionNeverStuck` | GAPortfolioSelection_PC/GAPortfolioSelection_PC/GALogic.h:209-222 | while pairs are to be chosen four tokens are left, none more than twice, and two of them differ |
| `GaLogic.Breed` | GAPortfolioSelection_PC/GAPortfolioSelection_PC/GAPortfolioSelection_PC.cpp:281-303 | the two fittest as they are and then the children of 49 such pairs, each pair sharing its symbols out, are again a population; it fails only if the draws do not last for the pairs or for their children |
| `GaLogic.Evolve` | GAPortfolioSelection_PC/GAPortfolioSelection_PC/GAPortfolioSelection_PC.cpp:271-321 | every generation is a hundred portfolios of ten different symbols, the fittest first, and comes from the one before it by breeding, mutation and sorting; there are forty, or the run stops at the first bred one whose portfolios are all equally fit; the result is the fittest of the last one |
| `GaLogic.HundredOfTen` | GAPortfolioSelection_PC/GAPortfolioSelection_PC/GALogic.h:55-71 | that is a hundred portfolios, each of ten different ones of the 505 symbols |
| `GaPortfolio.Portfolio.constructor` | GAPortfolioSelection_PC/GAPortfolioSelection_PC/Portfolio.h:25-50 | the normalised weights add up to 1 |
| `GaPortfolio.SquareOfSum` | GAPortfolioSelection_PC/GAPortfolioSelection_PC/Portfolio.h:73-80 | Cauchy-Schwarz for the sums of the index |
| `GaPortfolio.IndexBetween` | GAPortfolioSelection_PC/GAPortfolioSelection_PC/Portfolio.h:69-82 | the index lies between 1/n and 1 |
| `GaPortfolio.Portfolio.SetDiverIndex` | GAPortfolioSelection_PC/GAPortfolioSelection_PC/Portfolio.h:69-82 | the loop sets the sum of squared shares of risk, which lies between 1/n and 1 |
| `GaPortfolio.Portfolio.AssignFitness` | GAPortfolioSelection_PC/GAPortfolioSelection_PC/Portfolio.h:92 | its term in the fitness lies between 0.2 and 0.2 n |

## Left out

- Everything that talks to the outside: files, pipes, prompts, directory
  listings, timers, consoles, and all calls into the SQLite library.
- The wrappers for curl and JSON, the build scripts, the database tables and
  the back-testing output of the portfolio program.
- zlib and CRC-32: compressed data and checksums are arbitrary values given
  with a row.
- Statements that do not compile or are not queries, for which `sha3_query()`
  ends with an error, and hashes of NULL.
- ZIP deletes and updates of existing rows, and cursors: taking out the last
  node of the list leaves `pLastEntry` behind, so runs are inserts and
  replacements, where the node taken out is never the last.  Rollback is a
  commit in the source and promises nothing.
- The mode given as a string, the names of the directory bits, and the clock
  that stands in for a missing time: mode and time are numbers here.
- Names in an archive that contain a NUL byte, for which the text of the name
  is shorter than the bytes in the record, are excluded from the transaction
  theorem; the reader models them.
- Calendar.RoundTrip: the decimal constants of the source are read as exact
  rationals, not as floating point numbers.
- SqlQuote.UnusedString: the counter of the candidates does not wrap around at
  2^32, which would take a text of billions of characters.
- An entry whose local header lies outside the file: the source forgets the
  error of the short read and parses what is left in its scratch buffer
  (shell.c:4872-4877); the model ends with an error.
- Transactions and aggregates that run over the scratch buffer, or in which the
  size of a buffer overflows: the methods require the conditions under which
  neither happens, which `ZipTransaction.NameInBuffer`,
  `ZipTransaction.OldRecordInBuffer` and `ZipAggregate.GrowthBound` prove exact.
- What is in the memory behind a record is an arbitrary parameter; how earlier
  reads have filled it is not modelled.
- Old entries with an empty name: the source then looks at the byte before the
  name (shell.c:5449), and the model gives them the path of a single slash.
- Appended databases whose mark points behind the end of the file, databases
  opened on an empty file, writes that leave a gap, and the locking, shared
  memory and mapping calls, which are passed through.
- CSV NULL values, which print as a text that is set elsewhere, separators of
  more than one character, row separators other than a line feed, the ASCII
  mode, the messages about bad quoting, and the creation of a table from the
  first row.
- GaLogic.Mutate: which portfolios are hit is left open, because the comparison
  of a random fraction with the rate depends on floating point rounding.
- GaLogic.Evolve: the fitness is an arbitrary function of the symbols, and
  std::sort is any sort.  That no draws are wasted is stated of the methods it
  calls; of the loop itself only that it fails when they are used up.  The loops that draw until they find something new end
  when the given draws run out; that they never get stuck is proved, that they
  end with probability one is not.  The best fitness need not grow, because the
  two portfolios that are kept may be mutated.
- GaPortfolio.Portfolio.SetDiverIndex: over the reals, with a positive total
  risk; the deviations of the stocks are given numbers.
- The index expert beyond its hash table, the archive command line and the
  statistics display: calls into the library, or easy.
