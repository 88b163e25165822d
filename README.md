# Weishaupt symbol files to ebusd configuration, in Dafny

This project models the diagnostic scripts that read a Weishaupt firmware symbol
file (`.SYC`) and turn it into configuration for the ebusd bus daemon.

- **Checksum.** `calculate_weishaupt_crc_multi` is the vendor's one-byte checksum.
  - It is a CRC-8 variant with polynomial 0x5C.
  - The accumulator starts at the first payload byte.
  - For every later byte it runs eight shift rounds and then XORs that byte in.
  - Module `Checksum` proves the source's three expected values.
- **Register lines.** `generate_ebusd_lines` is modelled in module `EbusdLines`.
  - It splits an address into a high byte `cc` and a low byte `yy`.
  - It looks up the request payload for the section and `cc` in a table of seven rules.
  - It prefixes the payload with its checksum, in a read line and a write line.
- **Symbol scanner.** Module `Scanner` is the loop copied in three scripts.
  - It walks the buffer and counts the section footers.
  - It reads records made of a length byte, a name and a little-endian address.
  - It is a trace of events, and each of the three consumers is a fold over that trace:
    - `RegisterList`: the stably sorted register list of `parse_syc_to_ebusd`;
    - `Templates`: the de-duplicated, section-grouped templates of `generate_template_files`;
    - `SymbolDump`: the printout of `parse_syc.parse_syc_file`.
- **Older parser.** Module `SycParse` is `sycparse.parse_syc_file`.
  - It skips to the byte after the first `z`.
  - It reads length-prefixed names, each followed by a four-byte tail.
  - It keeps the entries whose cleaned-up name is printable.

The scripts' loops are methods with loop invariants. Each method is proved equal to a function that specifies it, and the properties are lemmas about those functions.

- Bytes are `bv8`.
- Python's clamped slices are `Bytes.Slice`.
- `list.sort` and `sorted` are an insertion sort and a selection of least names. Both are proved to give the order Python's sorts give.

`calculate_weishaupt_crc_multi` appears twice: in `weishaupt/diag/calculate_weishaupt_crc.py:1-32` and, unchanged, in `weishaupt/diag/generate_ebusd_csv.py:4-23`. Both copies are the one method `Checksum.CalculateWeishauptCrcMulti`.

## Model

| member | source | states |
|---|---|---|
| Bytes.Slice | weishaupt/diag/generate_ebusd_csv.py:120-128 | a Python slice of a byte string: the exact slice when the bounds lie inside the buffer; a window that starts inside but runs past the end is the rest of the buffer from its start; otherwise the result is empty when the window starts beyond the end or is reversed |
| Bytes.LittleEndian16 | weishaupt/diag/generate_ebusd_csv.py:129 | `int.from_bytes(meta, 'little')`: the first byte is the value modulo 256, the second the value divided by 256 |
| Bytes.AsciiDecode | weishaupt/diag/generate_ebusd_csv.py:125 | `decode('ascii')` gives one character per byte, with the byte's code |
| Bytes.HexPair | weishaupt/diag/generate_ebusd_csv.py:33 | `f"{yy:02X}"` is two upper-case hex digits whose value is `yy` |
| Bytes.Hex2RoundTrip | weishaupt/diag/generate_ebusd_csv.py:62 | reading back the two hex digits of a byte gives the byte |
| Bytes.FromHex | weishaupt/diag/generate_ebusd_csv.py:8 | `bytes.fromhex` yields one byte per two digits |
| Bytes.ToHexIsHex | weishaupt/diag/generate_ebusd_csv.py:62 | the hex text of `n` bytes is `2n` upper-case hex digits |
| Bytes.FromHexToHex | weishaupt/diag/generate_ebusd_csv.py:8 | `bytes.fromhex` undoes the hex text of any byte string |
| Bytes.FromHexAppend | weishaupt/diag/generate_ebusd_csv.py:8 | decoding a concatenation of hex strings decodes each part in turn |
| Bytes.ToHexAppend | weishaupt/diag/generate_ebusd_csv.py:62 | the hex text of a concatenation is the concatenation of the hex texts |
| Checksum.RoundShifts | weishaupt/diag/calculate_weishaupt_crc.py:23-27 | a round doubles the accumulator and drops the ninth bit; 0x5C is XOR-ed in exactly when that bit was set |
| Checksum.RoundsEight | weishaupt/diag/calculate_weishaupt_crc.py:23-27 | the inner `for _ in range(8)` is eight applications of the round |
| Checksum.Crc | weishaupt/diag/calculate_weishaupt_crc.py:13-20 | the empty payload has checksum 0; a one-byte payload is its own checksum |
| Checksum.AbsorbSnoc | weishaupt/diag/calculate_weishaupt_crc.py:20-30 | absorbing one more byte is eight rounds, then XOR with that byte |
| Checksum.AbsorbAppend | weishaupt/diag/calculate_weishaupt_crc.py:20-30 | absorbing two byte strings one after the other is absorbing their concatenation |
| Checksum.CrcSnoc | weishaupt/diag/generate_ebusd_csv.py:13-21 | for a non-empty payload, `crc(p + [b]) == rounds8(crc(p)) ^ b` |
| Checksum.CrcAppend | weishaupt/diag/generate_ebusd_csv.py:13-21 | the checksum of a longer payload continues from the checksum of its non-empty prefix |
| Checksum.CalculateWeishauptCrcMulti | weishaupt/diag/calculate_weishaupt_crc.py:1-32 | the nested shift-and-XOR loops return the checksum of the decoded payload |
| Checksum.ProcessValues4Checksum | weishaupt/diag/calculate_weishaupt_crc.py:38-41 | the checksum of `0122015B115F01660168` is 0x88 |
| Checksum.ErrorHistory1Checksum | weishaupt/diag/calculate_weishaupt_crc.py:43-46 | the checksum of `029F8263` is 0x03 |
| Checksum.Shc1Checksum | weishaupt/diag/calculate_weishaupt_crc.py:48-51 | the checksum of `73BB13AC` is 0x0C |
| Sections.SectionOf | weishaupt/diag/generate_ebusd_csv.py:94-108 | `current_section` is `actual_sections[section_idx]` while the index is in the table, and `EOF` from index 5 on, while the index keeps counting |
| Sections.Footer | weishaupt/diag/generate_ebusd_csv.py:86-92 | every footer is non-empty and starts with a byte of at least 0x42 (`L`, `B` or `S`) |
| Scanner.FirstFooter | weishaupt/diag/generate_ebusd_csv.py:103-112 | the footers are tried in list order: the result matches at the cursor and no earlier footer does, or none matches |
| Scanner.SkipMarker | weishaupt/diag/generate_ebusd_csv.py:148-150 | the cursor moves two further exactly when `79 05` follows the record |
| Scanner.RecordAtShaped | weishaupt/diag/generate_ebusd_csv.py:117-152 | a record is read exactly when the length is 3 to 39, all name bytes are accepted and both address bytes exist; then it is the record encoded there and the cursor moves past it and past a `79 05` marker |
| Scanner.ShapedRecordAt | weishaupt/diag/generate_ebusd_csv.py:118-150 | a record that fits is read with the decoded name, the little-endian address and the position after it |
| Scanner.UnshapedRecordAt | weishaupt/diag/generate_ebusd_csv.py:119-128 | a bad length, a refused name byte or a short name or address slice reads nothing |
| Scanner.DecodedRecord | weishaupt/diag/generate_ebusd_csv.py:124-129 | the decoded name has the length byte's length, its characters are the accepted name bytes, and the address is `b0 + 256*b1` |
| Scanner.FooterExcludesRecord | weishaupt/diag/generate_ebusd_csv.py:104-119 | where a footer matches, no record can start: footers never compete with records |
| Scanner.StepAt | weishaupt/diag/generate_ebusd_csv.py:101-153 | every pass moves the cursor forward and stays in the buffer; only a footer moves `section_idx`, by one |
| Scanner.StepFooter | weishaupt/diag/generate_ebusd_csv.py:103-115 | a pass hits a footer exactly when some footer matches; it takes the first in list order and skips its length |
| Scanner.StepRecord | weishaupt/diag/generate_ebusd_csv.py:117-153 | without a footer, a pass reads a symbol exactly when a record is shaped there; otherwise it moves on by one byte |
| Scanner.MatchFooter | weishaupt/diag/generate_ebusd_csv.py:103-115 | the `for footer in section_footers` loop finds the first matching footer |
| Scanner.ExtractRecord | weishaupt/diag/generate_ebusd_csv.py:117-152 | the record test of the loop body reads the record the specification reads |
| Scanner.ScanStep | weishaupt/diag/generate_ebusd_csv.py:101-153 | one pass of the loop body is one specification step, and `current_section` stays `SectionOf(section_idx)` |
| Scanner.TraceAdvances | weishaupt/diag/generate_ebusd_csv.py:101-153 | events come at strictly increasing buffer positions inside the buffer, so the loop terminates |
| Scanner.TraceSectionSteps | weishaupt/diag/generate_ebusd_csv.py:104-108 | `section_idx` goes up by exactly one at each footer and stays put at every other event |
| Scanner.TraceSectionMonotone | weishaupt/diag/generate_ebusd_csv.py:106 | `section_idx` never decreases |
| Scanner.TraceSymbolsEncoded | weishaupt/diag/generate_ebusd_csv.py:118-129 | every symbol event is a record encoded in the buffer at its position |
| Text.SplitJoin | weishaupt/diag/generate_ebusd_csv.py:65-69 | splitting the joined fields at a separator none of them contains gives the fields back |
| Text.JoinAvoids | weishaupt/diag/generate_ebusd_csv.py:65-69 | joining fields that avoid a character yields text that avoids it, unless it is the separator |
| EbusdLines.HighByte | weishaupt/diag/generate_ebusd_csv.py:31 | `address >> 8` is the byte with `256*cc <= address < 256*cc + 256` |
| EbusdLines.LowByte | weishaupt/diag/generate_ebusd_csv.py:32 | `address & 0xFF` is the byte with `256*cc + yy == address` |
| EbusdLines.DerivePayload | weishaupt/diag/generate_ebusd_csv.py:31-57 | a derived payload is a hex string of at least two bytes ending in `yy` in upper-case hex; `Bits` and `EOF` never get one |
| EbusdLines.RuleFor | weishaupt/diag/generate_ebusd_csv.py:37-57 | the rule table has an entry for the section and `cc` exactly when the lookup finds one, and gives its prefix |
| EbusdLines.LongPrefixText | weishaupt/diag/generate_ebusd_csv.py:44-49 | the Konstanten prefixes for `cc` 1 to 3 are `060102`, `060202` and `060302` |
| EbusdLines.PayloadFromShortRule | weishaupt/diag/generate_ebusd_csv.py:37-57 | RAM/00, Konstanten/00, XRAM/F0 and SFR/00 give their one-byte prefix followed by `yy` |
| EbusdLines.PayloadFromLongRule | weishaupt/diag/generate_ebusd_csv.py:41-49 | Konstanten/01..03 give `06 cc 02` followed by `yy` |
| EbusdLines.PayloadFromRule | weishaupt/diag/generate_ebusd_csv.py:37-57 | each of the seven rules gives its prefix followed by `yy` |
| EbusdLines.PayloadNeedsRule | weishaupt/diag/generate_ebusd_csv.py:35-57 | a payload is only derived where a rule applies |
| EbusdLines.PayloadFollowsRules | weishaupt/diag/generate_ebusd_csv.py:31-57 | the if/elif chain is exactly the seven-rule table: no payload without a rule, and the rule's prefix plus `yy` otherwise |
| EbusdLines.GenerateEbusdLines | weishaupt/diag/generate_ebusd_csv.py:59-71 | lines are produced exactly when a payload is derived, `None` otherwise |
| EbusdLines.TelegramCarriesChecksum | weishaupt/diag/generate_ebusd_csv.py:60-62 | the quoted telegram decodes to the payload's checksum byte followed by the payload |
| EbusdLines.LinesCarryTelegram | weishaupt/diag/generate_ebusd_csv.py:64-69 | the result is two lines, a read line and a write line, whose comma-separated fields carry the name and `"<CC><payload>"` |
| EbusdLines.RamRegisterExample | weishaupt/diag/generate_ebusd_csv.py:37-62 | RAM address 0x0010 gives payload `0110` and telegram `4C0110`; the address bytes `00 10` read low byte first give 0x1000, which gets no payload |
| RegisterList.RegisterOfSymbol | weishaupt/diag/generate_ebusd_csv.py:132-143 | a stored record comes from a symbol and keeps its name, `section_idx` and address |
| RegisterList.CollectSnoc | weishaupt/diag/generate_ebusd_csv.py:135-143 | each symbol appends at most its own record to `parsed_records` |
| RegisterList.CollectAppend | weishaupt/diag/generate_ebusd_csv.py:135-143 | the records of two runs of events are the records of each run, in order |
| RegisterList.CollectFromSymbols | weishaupt/diag/generate_ebusd_csv.py:132-143 | every stored record comes from a symbol event, lies in its event's section, has a mapping rule, and has `cc` and `yy` as bytes |
| RegisterList.RegistersAreRecords | weishaupt/diag/generate_ebusd_csv.py:118-143 | every stored record is encoded in the buffer, has a 3-39 character name and a mapping rule |
| RegisterList.InsertPermutes | weishaupt/diag/generate_ebusd_csv.py:156 | inserting adds exactly the one element |
| RegisterList.InsertSorted | weishaupt/diag/generate_ebusd_csv.py:156 | inserting into a list sorted by `(section_idx, cc, yy)` keeps it sorted |
| RegisterList.InsertStable | weishaupt/diag/generate_ebusd_csv.py:156 | inserting keeps records with equal keys in their original order |
| RegisterList.SortRegistersSorted | weishaupt/diag/generate_ebusd_csv.py:156 | the sorted list is ordered by `(section_idx, cc, yy)` |
| RegisterList.SortRegistersPermutes | weishaupt/diag/generate_ebusd_csv.py:156 | the sorted list is a permutation of the scanned records |
| RegisterList.SortRegistersStable | weishaupt/diag/generate_ebusd_csv.py:156 | records with equal keys keep their scan order, as `list.sort` promises |
| RegisterList.AppendRegister | weishaupt/diag/generate_ebusd_csv.py:132-143 | the body of the record branch appends the symbol's record exactly when lines are generated for it |
| RegisterList.ParseSycToEbusd | weishaupt/diag/generate_ebusd_csv.py:77-156 | the scan loop and the sort return the stably sorted records of the whole scan |
| Templates.TemplateLineDecodes | weishaupt/diag/generate_ebusd_templates.py:80-83 | a template line determines its name and whether its section is `Bits` (type `BI0` versus `UCH`) |
| Templates.InitialState | weishaupt/diag/generate_ebusd_templates.py:40-44 | the loop starts with no names seen and an empty group for every section |
| Templates.AddEvent | weishaupt/diag/generate_ebusd_templates.py:75-86 | each pass keeps one group per section |
| Templates.RepeatChangesNothing | weishaupt/diag/generate_ebusd_templates.py:76 | a name already seen changes neither `seen_names` nor any group |
| Templates.GatherSeen | weishaupt/diag/generate_ebusd_templates.py:43-86 | a name is in `seen_names` exactly when some symbol carried it |
| Templates.LastSighting | weishaupt/diag/generate_ebusd_templates.py:76-77 | a symbol is a first sighting exactly when its name is not yet in `seen_names` |
| Templates.GatherGroups | weishaupt/diag/generate_ebusd_templates.py:75-86 | a name is filed in a section exactly when its first sighting happened in that section |
| Templates.SeenNameInOneGroup | weishaupt/diag/generate_ebusd_templates.py:86 | every seen name is in exactly one group |
| Templates.AddEventFiled | weishaupt/diag/generate_ebusd_templates.py:76-86 | each pass files only seen names, under their section's template line |
| Templates.AddEventCounted | weishaupt/diag/generate_ebusd_templates.py:76-86 | each pass keeps the group sizes summing to `len(seen_names)` |
| Templates.GatherConsistent | weishaupt/diag/generate_ebusd_templates.py:76-119 | after the scan, every filed name is seen and carries its template line, and the group sizes sum to the reported number of unique templates |
| Templates.GenerateTemplateGroups | weishaupt/diag/generate_ebusd_templates.py:37-96 | the scan loop with its `seen_names` set and `grouped_templates` dictionary computes the specification's state |
| Templates.NameLessIrreflexive | weishaupt/diag/generate_ebusd_templates.py:115 | no name sorts before itself |
| Templates.NameLessTransitive | weishaupt/diag/generate_ebusd_templates.py:115 | the string order used by `sorted` is transitive |
| Templates.NameLessTotal | weishaupt/diag/generate_ebusd_templates.py:115 | of two different names one sorts first |
| Templates.LeastNameExists | weishaupt/diag/generate_ebusd_templates.py:115 | every non-empty set of names has a least one |
| Templates.StrictlySortedUnique | weishaupt/diag/generate_ebusd_templates.py:115 | two ascending lists with the same names are equal, so the sorted order is unique |
| Templates.SortNames | weishaupt/diag/generate_ebusd_templates.py:115 | `sorted(keys)` lists every key once, in ascending order |
| Templates.SectionPosition | weishaupt/diag/generate_ebusd_templates.py:13-20 | each section has its place in `actual_sections` |
| Templates.NonEmptySectionsMembers | weishaupt/diag/generate_ebusd_templates.py:106-108 | the sections written are exactly those with a non-empty group |
| Templates.NonEmptySectionsInOrder | weishaupt/diag/generate_ebusd_templates.py:106-108 | they are written in the order of `actual_sections` |
| Templates.WriteLines | weishaupt/diag/generate_ebusd_templates.py:116-117 | one template line per name, in the order of the names |
| Templates.RenderTemplates | weishaupt/diag/generate_ebusd_templates.py:106-117 | the output is one block per non-empty group in section order, each listing every name of the group once, ascending, with its line |
| Templates.GenerateTemplateFile | weishaupt/diag/generate_ebusd_templates.py:32-119 | one file's blocks render the gathered groups, and the reported count is the number of seen names |
| SymbolDump.PrintoutAppend | weishaupt/diag/parse_syc.py:32-74 | the printout of two runs of events is the two printouts in order |
| SymbolDump.PrintEvent | weishaupt/diag/parse_syc.py:36-64 | one pass prints the new section's header after a footer while the index is in the table, the row of a symbol, and nothing else |
| SymbolDump.ParseSycFile | weishaupt/diag/parse_syc.py:27-74 | the loop prints the `RAM` header and then what the scan prints |
| SymbolDump.SectionsFromTable | weishaupt/diag/parse_syc.py:38-40 | the headers one per footer are a slice of `actual_sections`, capped at its end |
| SymbolDump.HeadersStep | weishaupt/diag/parse_syc.py:36-40 | a footer adds the header of the section it opens, any other event adds no header |
| SymbolDump.ChainedHeaders | weishaupt/diag/parse_syc.py:36-40 | events whose index follows the footers print one header per footer, naming the following sections |
| SymbolDump.TraceHeaders | weishaupt/diag/parse_syc.py:32-47 | from any index, the scan prints one header per footer, naming the sections that follow |
| SymbolDump.TraceChained | weishaupt/diag/parse_syc.py:36-38 | the scan's events carry the index that the footers produce |
| SymbolDump.ChainedDump | weishaupt/diag/parse_syc.py:28-40 | after the `RAM` header, the headers are the first `1 + footers` sections, capped at six |
| SymbolDump.DumpHeaders | weishaupt/diag/parse_syc.py:27-47 | the printed headers of a whole file are the first `1 + footers` sections, capped at six |
| SymbolDump.DumpRowsEncoded | weishaupt/diag/parse_syc.py:50-64 | every printed row is a record encoded in the buffer, with its little-endian address |
| SymbolDump.PrintoutRows | weishaupt/diag/parse_syc.py:64 | every printed row is the name and address of some symbol event |
| SycParse.FindFrom | weishaupt/diag/sycparse.py:16 | `data.find(b'z')` gives the first position of the byte, or none when it does not occur |
| SycParse.DecodeIgnore | weishaupt/diag/sycparse.py:36 | decoding with `errors='ignore'` keeps only characters below 0x80 and never lengthens |
| SycParse.DecodeIgnoreOne | weishaupt/diag/sycparse.py:36 | a byte below 0x80 decodes to its own character, any other byte to nothing |
| SycParse.DecodeIgnoreAppend | weishaupt/diag/sycparse.py:36 | decoding works byte by byte: the decoding of a concatenation is the concatenation of the decodings, so the kept characters keep their order |
| SycParse.DecodeIgnoreAscii | weishaupt/diag/sycparse.py:36 | on bytes below 0x80 it is the plain ASCII decoding |
| SycParse.StripLeftSpec | weishaupt/diag/sycparse.py:36 | `lstrip` cuts off exactly the leading whitespace |
| SycParse.StripRightSpec | weishaupt/diag/sycparse.py:36 | `rstrip` cuts off exactly the trailing whitespace |
| SycParse.StripSpec | weishaupt/diag/sycparse.py:36 | `strip` leaves the stretch of the name between leading and trailing whitespace, which neither starts nor ends with whitespace |
| SycParse.StripIdempotent | weishaupt/diag/sycparse.py:36 | stripping twice is stripping once |
| SycParse.EntryAt | weishaupt/diag/sycparse.py:24-57 | a pass that goes on moves the cursor forward |
| SycParse.EntryShape | weishaupt/diag/sycparse.py:27-57 | a pass stops exactly on a zero length or when name and tail do not fit; otherwise it moves `5 + len` bytes and keeps the entry exactly when the cleaned name passes the check, with the little-endian address and the bank byte |
| SycParse.ParseFromStep | weishaupt/diag/sycparse.py:24-57 | the entries from a position are the entry there, if kept, followed by those after it |
| SycParse.ReadEntriesStop | weishaupt/diag/sycparse.py:30-41 | a `break` leaves the list complete |
| SycParse.ReadEntriesStep | weishaupt/diag/sycparse.py:49-57 | a pass that goes on keeps the collected list plus what is to come unchanged |
| SycParse.ParseSycWithoutMagic | weishaupt/diag/sycparse.py:16-19 | a buffer without a `z` gives no variables |
| SycParse.ParseSycFromFirstMagic | weishaupt/diag/sycparse.py:16-22 | otherwise parsing starts at the byte right after the first `z` |
| SycParse.ReadEntry | weishaupt/diag/sycparse.py:26-57 | the loop body computes the specification's pass |
| SycParse.ReadEntries | weishaupt/diag/sycparse.py:22-61 | the loop collects exactly the specification's entries |
| SycParse.ParseSycFile | weishaupt/diag/sycparse.py:15-61 | the whole parse returns the specification's variables |
| SycParse.ParseFromPositions | weishaupt/diag/sycparse.py:24-57 | the k-th variable is the entry decoded at the k-th kept position; kept positions are at least six bytes apart, so variables keep file order |

## Left out

- File input and output, `glob` discovery, the de-duplicated file list and the output file names are left out. The scripts' functions take the file's bytes and return what they would write or print.
- The fixed header lines and the `# --- section ---` separator lines written to the output files are left out, and so are `print` column widths and progress messages. `parse_syc.py`'s output is a sequence of headers and (name, address) rows.
- The exploratory `print(hex(...))` calls in `calculate_weishaupt_crc.py:54-113` carry no expected values and are left out.
- Checksum.CalculateWeishauptCrcMulti: requires a well-formed hex string (an even number of hex digits). `bytes.fromhex` would raise an error on other input, or skip spaces, and neither is modelled. Every payload the generator builds is well-formed.
- The `try`/`except` of `sycparse.py:59-61` is left out. The bounds checks before every index make it unreachable.
- SycParse.IsSpace: `str.strip()` is modelled for the characters below 0x80 only. Those are the only ones `decode('ascii', errors='ignore')` can produce.
- SycParse.IsPrintable: `str.isprintable()` is modelled for characters below 0x80 (space to tilde), for the same reason.
- Bytes.AsciiDecode: maps every byte to the character with its code. The scanner only calls it on accepted name bytes, which are ASCII, so the error `decode('ascii')` raises on a byte of 0x80 or more never arises.
- `list.sort` and `sorted` are modelled by functions on sequences (an insertion sort and a least-name selection), not by Python's in-place algorithm. What the model proves about them is the result Python's stable sorts promise: ordered, a permutation, and stable.
- The bit shift `(crc << 1) & 0xFF` is written as doubling on an 8-bit value, which is the same operation (`Checksum.RoundShifts`).
- `sycparse.py`'s own result printing (lines 63-70) is left out. `ParseSycFile` returns the list it prints.

## Behaviour worth knowing

- **Truncated records.** A record whose name or address runs past the end of the buffer does not end the scan. The clamped slices come back short, so no record is read, and the cursor moves on by one byte (`generate_ebusd_csv.py:120-153`, `Scanner.StepRecord`).
- **Section index.** `section_idx` is not clamped. It keeps counting past the table, while `current_section` stays at `EOF` (`generate_ebusd_csv.py:106-108`, `Sections.SectionOf`).
- **No de-duplication.** The register list keeps every record that maps to a payload. It neither de-duplicates names nor merges equal payloads (`generate_ebusd_csv.py:132-143`, `RegisterList.CollectAppend`).
- **Byte order.** Addresses are read low byte first (`EbusdLines.RamRegisterExample`):
  - Address bytes `10 00` are RAM register 0x0010, with payload `0110` and checksum 0x4C.
  - Address bytes `00 10` are 0x1000. Its high byte 0x10 has no RAM rule, so no line is produced.
