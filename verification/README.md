# MPS7 transaction-log reader and SLCSP lookup, modelled in Dafny

This project models the two pure-logic components of the repository.

- **The MPS7 reader** (`proto/mps7.py`). It decodes a binary payment-processing log. The log starts with a 9-byte header: the ASCII magic `MPS7`, a version byte that must be 1, and a big-endian 4-byte record count. Packed records follow. Each record holds a kind byte (Debit, Credit, StartAutopay, EndAutopay), a 4-byte timestamp and an 8-byte user id. Debit and Credit records also hold an 8-byte amount. The `Reader` is a cursor with a read position, `_index` and `_record_count`, and `reset` rewinds it. `aggregates` and `get_balance` are single passes over the records.
- **The second-lowest-cost silver plan lookup** (`slcsp/find_slcsp.py`). `zip_county_lookup` groups zipcode rows by zipcode. `filter_plans` selects the plans of one rate area at one metal level. `find_slcsp` resolves a zipcode to exactly one rate area and returns the second lowest distinct Silver rate of that area. Otherwise it raises one of four errors.

Files, one module each:

| file | module | what it holds |
|---|---|---|
| `wrappers.dfy` | `Wrappers` | `Option` (Python `None`) and `Result` (a value or a raised exception) |
| `big_endian.dfy` | `BigEndian` | bytes, `int.from_bytes(..., 'big')` as `FromBytes`, and its inverse `ToBytes` |
| `mps7.dfy` | `Mps7` | record kinds, records, errors, the header check and the decoding of one record |
| `mps7_reader.dfy` | `Mps7Reader` | the reader state, `_setup`, `reset`, `__next__`, and a full pass (`Drain`) |
| `mps7_encoding.dfy` | `Mps7Encoding` | an encoder for the layout, used as the reference the decoder is proved against |
| `mps7_folds.dfy` | `Mps7Folds` | `aggregates` and `get_balance` as loops over the reader, plus the sums they must equal |
| `rate_order.dfy` | `RateOrder` | plans, sorting by rate, and `toolz.unique` |
| `slcsp.dfy` | `Slcsp` | zipcode grouping, plan filtering and `find_slcsp` |

Modelling decisions:

- **File input.** The file is an in-memory `seq<Byte>` and the read position is a field of the reader. A read of `n` bytes takes at most the `n` bytes that remain. The big-endian value of a short read is smaller, and an empty read gives 0. So the reader never reports truncation. Past the end of the data it decodes `Debit` records with timestamp, user id and amount 0 (`Mps7.DecodeRecord` states this). A strict reader would fail instead, but the code has no such check, and the model follows the code.
- **Errors.** Exceptions become `Failure` values. A magic byte outside US-ASCII makes `.decode('us-ascii')` raise, and this is modelled as `AsciiDecodeError`, distinct from `UnrecognizedFormat`. An unknown kind byte makes the `RecordTypes(...)` lookup raise `ValueError`, and this is modelled as `InvalidRecordType(value)`.
- **Reader state after a failure.** `__next__` increments `_index` before it decodes. After an `InvalidRecordType` failure, the reader state in `Next` has `_index` advanced and the kind byte consumed, as in the code.
- **Timestamps.** A timestamp is the raw 4-byte count of epoch seconds. The `datetime` conversion is not modelled.
- **SLCSP fields.** All CSV fields stay strings, because the schema checks discard their converted values. Only the rate is an integer key, for example cents. The code sorts rates by `float(rate)` but removes duplicates by comparing the rate strings. The model assumes that two rates are equal as strings exactly when they are equal as numbers.
- **The chosen rate area.** `find_slcsp` takes `first(rate_areas)` of a one-element set. The model takes the rate area of the zipcode's first row instead. `Slcsp.RateAreaCount` proves that this is the set's only element.
- **`toolz.unique`.** It is a library function. It is modelled as its documented behaviour: keep the first occurrence of each value, in order.

## Model

| member | source | states |
|---|---|---|
| `BigEndian.FromBytes` | proto/mps7.py:80-84 | the unsigned big-endian value of n bytes is below 256^n; the empty read is 0 |
| `BigEndian.ToBytes` | proto/mps7.py:40 | encoding a value below 256^w as w big-endian bytes gives w bytes that decode back to the value |
| `BigEndian.ToBytesFromBytes` | proto/mps7.py:80-84 | every byte string is the encoding of its big-endian value, so decoding is injective at a fixed width |
| `Mps7.KindFromOrdinal` | proto/mps7.py:19-23 | a kind byte maps to a record type exactly when it is 0..3, and the type's ordinal is that byte |
| `Mps7.KindRoundTrip` | proto/mps7.py:19-23 | every record type maps back from its own ordinal |
| `Mps7.ReadInt` | proto/mps7.py:80-84 | a read takes up to n remaining bytes and its value is exactly the big-endian value of the bytes it took: all n when they are there, the remaining ones on a short read, 0 at end of data |
| `Mps7.AsciiDecode` | proto/mps7.py:65 | ASCII decoding succeeds exactly when every byte is below 128, and keeps each byte's code |
| `Mps7.MagicMatchesBytes` | proto/mps7.py:41 | the decoded magic equals "MPS7" exactly when the bytes are 4D 50 53 37 |
| `Mps7.ReadHeader` | proto/mps7.py:64-78 | a non-ASCII magic raises the decode error and a wrong magic raises UnrecognizedFormat, both judged on the first 4 bytes alone; then a version other than 1 raises UnsupportedVersion(1, actual), with a missing byte read as 0; only then is the count read from bytes 5..8, and the header ends at offset 9 or at the end of the data |
| `Mps7.DecodeRecord` | proto/mps7.py:92-107 | an unknown kind byte fails with that value right after the byte; otherwise the record is well formed (an amount exactly for Debit/Credit), its kind is the byte read, and it consumes 21 or 13 bytes or whatever remains; at end of data it yields a zero Debit |
| `Mps7.DecodedFields` | proto/mps7.py:94-98 | the timestamp, user id and amount of a decoded record are the big-endian values of the bytes at offsets 1..4, 5..12 and 13..20, or of what is left of them when the record is cut short |
| `Mps7Reader.Setup` | proto/mps7.py:44-53 | opening fails exactly on a bad magic or version; otherwise the cursor sits at offset 9 or the end of the data, `_index` is 0 and the count is the value of bytes 5..8 |
| `Mps7Reader.Reset` | proto/mps7.py:86-87 | reset runs `_setup` again on the same data: it raises the same error as opening when the header is bad, and otherwise puts the cursor at offset 9 (or the end of the data), `_index` at 0 and re-reads the count from bytes 5..8 |
| `Mps7Reader.Next` | proto/mps7.py:58-62 | while `_index` is below the count, a call increments it and yields a well-formed record or raises on an unknown kind byte; at the count it signals the end and changes nothing; the data and count never change |
| `Mps7Reader.Drain` | proto/mps7.py:55-62 | a full pass yields no more records than are owed and exactly `_record_count - _index` of them unless it raises, leaving `_index` at the count; the data and count never change |
| `Mps7Reader.PassEndsCleanly` | proto/mps7.py:58-62 | every record a pass yields is well formed, and after a pass without error every later call signals the end and changes nothing |
| `Mps7Reader.PassAdvances` | proto/mps7.py:58-62 | a pass splits around one call of `__next__`: it ends there with the records seen so far, fails there with that call's error, or continues from the next state with one more record seen, ending where that rest ends |
| `Mps7Reader.FreshPassYieldsRecordCount` | proto/mps7.py:58-62 | a pass over a freshly opened reader that does not raise yields exactly the header's record count |
| `Mps7Reader.ResetReplaysPass` | proto/mps7.py:50-53 | resetting after a complete pass gives back the freshly opened reader, so a second pass yields the same records and error as the first |
| `Mps7Reader.PassFailsOnlyOnUnknownKind` | proto/mps7.py:93 | the only error a pass can raise is an unknown kind byte, and it is the byte just before the final position |
| `Mps7Encoding.ReadEncodedInt` | proto/mps7.py:80-84 | bytes that encode v at width n read back as v and move the position by n |
| `Mps7Encoding.ReadEncodedHeader` | proto/mps7.py:64-78 | an encoded header (MPS7, version 1, count) reads back as that count, with records starting at offset 9 |
| `Mps7Encoding.DecodeEncodedRecord` | proto/mps7.py:92-107 | an encoded well-formed record decodes to itself and ends exactly 21 or 13 bytes later |
| `Mps7Encoding.DrainEncodedRecords` | proto/mps7.py:58-62 | a reader on the encoding of exactly the records it owes yields those records, in order, without error |
| `Mps7Encoding.LogRoundTrip` | proto/mps7.py:44-107 | an encoded log opens with the number of records written and a full pass returns exactly those records |
| `Mps7Encoding.SampleLogDecodes` | proto/mps7.py:92-107 | a concrete 30-byte log (header with count 1, then one Debit of 100 by user 7 at epoch second 100) opens and decodes to exactly that one record |
| `Mps7Folds.NetBalanceAppend` | proto/mps7.py:143-153 | the balance of a concatenation is the sum of the balances of its parts |
| `Mps7Folds.SingleRecordBalance` | proto/mps7.py:146-151 | one record adds its amount if it is the user's Credit, subtracts it if it is the user's Debit, and adds nothing otherwise |
| `Mps7Folds.IrrelevantRecordKeepsBalance` | proto/mps7.py:146-151 | inserting an autopay record or another user's record anywhere leaves a user's balance unchanged |
| `Mps7Folds.NoTransactionsMeansZero` | proto/mps7.py:143-153 | a user without Debit or Credit records has balance 0 |
| `Mps7Folds.TallyRecordExtendsTotals` | proto/mps7.py:122-130 | one step of the `aggregates` loop keeps the running totals equal to the sum of Debit amounts, the sum of Credit amounts and the two autopay counts |
| `Mps7Folds.ApplyToBalanceExtendsNet` | proto/mps7.py:145-151 | one step of the `get_balance` loop keeps the running balance equal to the user's credits minus their debits |
| `Mps7Folds.Aggregates` | proto/mps7.py:117-130 | the totals are the sum of Debit amounts, the sum of Credit amounts and the number of StartAutopay and EndAutopay records of a full pass; if the pass raises, its error is returned and no totals; either way the reader is left where the pass ended, exhausted or just past the bad kind byte |
| `Mps7Folds.GetBalance` | proto/mps7.py:138-153 | the balance is the user's Credit amounts minus their Debit amounts over a full pass; if the pass raises, its error is returned; either way the reader is left where the pass ended |
| `RateOrder.InsertByRate` | slcsp/find_slcsp.py:133 | inserting into plans sorted by rate keeps them sorted and adds exactly the one plan |
| `RateOrder.SortByRate` | slcsp/find_slcsp.py:133 | sorting by rate gives a permutation of the plans in ascending order of rate |
| `RateOrder.RatesOf` | slcsp/find_slcsp.py:131-134 | the rate list has one entry per plan, in the same order |
| `RateOrder.UniqueFrom` | slcsp/find_slcsp.py:131 | unique continued after some seen values keeps each unseen value once, and nothing else; on a non-decreasing input the result is strictly increasing |
| `RateOrder.Unique` | slcsp/find_slcsp.py:131 | unique keeps each value exactly once and nothing else; on a non-decreasing input the result is strictly increasing |
| `RateOrder.SortedRatesNonDecreasing` | slcsp/find_slcsp.py:131-134 | the rates of plans sorted by rate never decrease |
| `Slcsp.ZipCountyLookup` | slcsp/find_slcsp.py:98-102 | the lookup's keys are exactly the zipcodes that occur, and each zipcode's list is its rows in input order |
| `Slcsp.LookupStep` | slcsp/find_slcsp.py:100-101 | one more row adds its zipcode and goes at the end of that zipcode's list |
| `Slcsp.LookupListsEveryRowOnce` | slcsp/find_slcsp.py:98-102 | the list lengths, over the distinct zipcodes, add up to the number of rows |
| `Slcsp.FilterPlans` | slcsp/find_slcsp.py:105-112 | the result holds exactly the plans whose state, rate area and metal level all match, each as often as in the input |
| `Slcsp.FilterPlansAppend` | slcsp/find_slcsp.py:105-112 | filtering distributes over concatenation, so it keeps the input order |
| `Slcsp.RateAreaCount` | slcsp/find_slcsp.py:116-125 | a zipcode has no rate area exactly when it has no rows, and more than one exactly when two rows differ in (state, rate area); otherwise its area is its first row's |
| `Slcsp.DistinctSilverRates` | slcsp/find_slcsp.py:127-134 | the sorted, de-duplicated Silver rates are strictly increasing and are exactly the area's Silver rates |
| `Slcsp.SecondOfIncreasing` | slcsp/find_slcsp.py:136-141 | in a strictly increasing listing of a set, there are two entries exactly when the set has two distinct values, and the second entry is the second lowest value |
| `Slcsp.FindSlcsp` | slcsp/find_slcsp.py:115-141 | MultipleRateAreasFound exactly when two rows differ in rate area; NoRateAreasFound exactly when the zipcode has no rows, unknown zipcodes included; NoPlansFound exactly when the one area has no Silver plan; InsufficientRatesFound exactly when its Silver plans share one rate; otherwise the result is a Silver rate with exactly one lower Silver rate |

## Left out

- File handling: `open`, `seek`, `close` and `Reader.close` (`proto/mps7.py:44-45, 89-90`), and the CSV reading and writing of `slcsp/find_slcsp.py:63-67, 144-173`. The file is an in-memory byte sequence or row list instead.
- `parse_args` and `main` in both files. They are command-line and output glue. So is the loop in `main` that maps the four SLCSP errors to an empty rate.
- `datetime.fromtimestamp` (`proto/mps7.py:94`). It converts to local time, so the timestamp stays raw epoch seconds.
- `locale` currency formatting and the `print` calls of `aggregates` (`proto/mps7.py:115, 132-135`). They are presentation only. `Mps7Folds.Aggregates` returns the four totals instead of printing them.
- `validate_plan_data` and `validate_zip_county_data` (`slcsp/find_slcsp.py:70-95`). They wrap the `schema` library and discard its results.
- `float(rate)` parsing. Rates are integer keys. If two rate strings differ but have the same numeric value (`"10.0"` and `"10.00"`), the code keeps both as distinct rates and the model keeps one.
- `RateOrder.SortByRate`: it is stable like Python's `sorted`, but stability is not stated. It plays no role once rates are integer keys.
- The browser form handler in `hhbuilder/main.js` and the HTTP middleware in `middleware/middleware.go`. Neither belongs to these two components.
