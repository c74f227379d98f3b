# google-sheet-api core, modelled in Dafny

This project models the part of the google-sheet-api service that runs in
memory: the helpers of `modules/sheetHelper.js`, and the data handling
inside the request handlers of `index.js`. The handlers turn a spreadsheet
range into JSON records and JSON records back into rows.

- `column_codec.dfy` (module `ColumnCodec`) models the column-label codec.
  `columnToLetter` is a `while` loop and `letterToColumn` a `for` loop.
  Both are methods proved against `Encode` and `Decode`, the two halves of
  bijective base 26, and the two round trips are proved.
- `records.dfy` (module `Records`) models JavaScript plain objects as
  association lists in key-enumeration order. `Assign` is property
  assignment: an existing key keeps its place and takes the new value; a
  new key is appended. `FromEntries` is a run of assignments starting from
  `{}`. It is checked against two reference definitions: the value of the
  last entry with a key (`LastValue`) and the keys without repeats
  (`Dedup`).
- `strings.dfy` (module `Strings`) covers the string operations the code
  uses:
  - ECMAScript `trim`, with the exact WhiteSpace and LineTerminator set;
  - `split` on a one-character separator, with JavaScript's result for
    empty pieces;
  - `join`.
- `sheet_helper.dfy` (module `SheetHelper`) models `getFieldMask`,
  `createObject` (a method with the `for…in` loop) and `trimObjectSpace`.
- `sheet_handler.dfy` (module `SheetHandler`) covers five pieces of
  `index.js`, lifted out of their callbacks:
  - the header trim of `readHeader`;
  - the rows-to-records mapping of `readSheet` (methods with the two
    nested loops);
  - the records-to-rows projection of `insertSheet`;
  - the path parsing of `extractRequest`;
  - the row range of `deleteSheet`.

Behaviour of the code that the model keeps as written:

- `columnToLetter` does not reject a column of 0 or less; it returns "".
  `letterToColumn` does not reject characters outside A–Z; each character
  counts as its code minus 64. The round trips are proved for columns >= 1
  and for labels made of 'A'..'Z'.
- `readSheet` walks each row, not the header. A cell past the end of the
  header is stored under the key "undefined" (`HeaderKey`), and a repeated
  header name keeps the later column's cell (`RecordOfRowCell`). For a row
  no longer than the header, the columns past the row's end get no key at
  all, not "" (`RecordOfRowAbsent`).
- `readSheet` answers `{}` for a range with at most one row. This is
  `Single([])`.

## Model

| member | source | states |
|---|---|---|
| ColumnCodec.Letter | modules/sheetHelper.js:13 | `String.fromCharCode(temp + 65)` for a digit 1..26 is an upper-case letter whose value (code minus 64) is that digit |
| ColumnCodec.Encode | modules/sheetHelper.js:7-17 | the label is all upper-case letters, and it is non-empty exactly when the column is >= 1 |
| ColumnCodec.StepIsExact | modules/sheetHelper.js:12-14 | in each turn of the loop, `temp` lies in 0..25, `col - temp - 1` is a multiple of 26, and the next `col` is non-negative and strictly smaller, so the loop ends |
| ColumnCodec.ColumnToLetter | modules/sheetHelper.js:7-17 | the loop returns `Encode(column)`: "" for a column <= 0, otherwise a non-empty label that decodes back to the column |
| ColumnCodec.LetterToColumn | modules/sheetHelper.js:19-26 | the sum of `(code - 64) * 26^(length - i - 1)` equals the most-significant-first reading `Decode`; "" gives 0; for an all-upper-case label, encoding the result gives the label back |
| ColumnCodec.DecodeEncode | modules/sheetHelper.js:7-17 | decoding the label of a column >= 1 gives the column back; the label of a column <= 0 decodes to 0 |
| ColumnCodec.DecodeLabelSign | modules/sheetHelper.js:19-26 | an upper-case label decodes to a non-negative column, positive exactly when the label is non-empty |
| ColumnCodec.EncodeDecode | modules/sheetHelper.js:19-26 | encoding the column of any upper-case label gives the label back, so labels and columns >= 1 are in bijection |
| ColumnCodec.ColumnExamples | modules/sheetHelper.js:7-26 | 1, 26, 27, 702 and 703 are A, Z, AA, ZZ and AAA; A, Z and AA decode to 1, 26 and 27 |
| Strings.TrimStartShape | modules/sheetHelper.js:39 | the leading-whitespace pass of `trim` keeps a suffix, drops only whitespace and stops at a non-whitespace character |
| Strings.TrimEndShape | modules/sheetHelper.js:39 | the trailing-whitespace pass of `trim` keeps a prefix, drops only whitespace and stops at a non-whitespace character |
| Strings.Trim | modules/sheetHelper.js:39 | the result of `key.trim()` neither starts nor ends with whitespace |
| Strings.TrimIsSlice | modules/sheetHelper.js:39 | `s.trim()` is a contiguous slice of `s` with only whitespace before and after it |
| Strings.TrimmedIsFixed | modules/sheetHelper.js:39 | trimming a string that is already trimmed changes nothing |
| Strings.TrimIdempotent | modules/sheetHelper.js:39 | trimming twice is trimming once |
| Strings.TrimAll | index.js:108 | `map((cell) => cell.trim())` keeps the number of cells |
| Strings.TrimAllCells | index.js:108 | each mapped cell is the trimmed cell of the same column, so it is trimmed |
| Strings.Split | index.js:236 | `split("/")` gives at least one piece, and no piece holds the separator |
| Strings.SplitFirst | index.js:236-237 | the first piece is the text before the first separator (all of it when there is none); the other pieces are the split of the rest |
| Strings.JoinSplit | index.js:236 | joining the pieces of a split with the separator gives back the original text |
| Strings.Join | modules/sheetHelper.js:4 | `join(",")` of no pieces is ""; otherwise it starts with the first piece, and with two or more pieces the separator follows it |
| Strings.SplitJoin | modules/sheetHelper.js:4 | splitting a join of separator-free pieces gives back the pieces |
| Strings.JoinSeparatorCount | modules/sheetHelper.js:4 | a join of k >= 1 separator-free pieces holds exactly k - 1 separators |
| Records.Truthy | index.js:142 | the falsy values are exactly "", 0, false and null |
| Records.Lookup | index.js:142 | `row[element]` is a value the record holds under that key, and undefined only when no entry has the key |
| Records.Keys | modules/sheetHelper.js:4 | `_.keys(obj)` lists one key per entry, in enumeration order |
| Records.Assign | modules/sheetHelper.js:39 | property assignment leaves the key list unchanged when the key is present, and appends the key otherwise |
| Records.AssignLookup | modules/sheetHelper.js:39 | after `o[k] = v`, `o[k]` is `v` and every other key reads as before |
| Records.AssignAppends | modules/sheetHelper.js:39 | assigning to a new key appends exactly that entry |
| Records.AssignReplaces | modules/sheetHelper.js:39 | in an object with distinct keys, assigning to a present key replaces that entry in place and keeps the length |
| Records.AssignShape | modules/sheetHelper.js:39 | assignment keeps keys distinct; it appends for a new key and replaces in place for a present key |
| Records.FromEntries | modules/sheetHelper.js:36-42 | an object built by successive assignments from `{}` has distinct keys |
| Records.DedupContents | modules/sheetHelper.js:36-42 | the reference key list `Dedup` has no repeats and holds exactly the elements of its input |
| Records.DedupDistinct | modules/sheetHelper.js:36-42 | `Dedup` leaves a list without repeats unchanged |
| Records.FromEntriesKeys | modules/sheetHelper.js:36-42 | the built object's keys are the assigned keys without repeats, each at the place of its first assignment |
| Records.FromEntriesLookup | modules/sheetHelper.js:36-42 | the built object's value under every key is that of the last assignment to it (`LastValue`) |
| Records.FromEntriesDistinct | modules/sheetHelper.js:36-42 | entries with distinct keys build exactly themselves |
| Records.LastValueAt | modules/sheetHelper.js:36-42 | `LastValue` finds the entry at `i` when no later entry has its key |
| Records.LastValueNone | modules/sheetHelper.js:36-42 | `LastValue` is undefined exactly when no entry has the key |
| SheetHelper.GetFieldMask | modules/sheetHelper.js:3-5 | the mask of `{}` is "", and the mask of a one-key object is that key |
| SheetHelper.FieldMaskSplits | modules/sheetHelper.js:3-5 | for keys without commas, the mask of k >= 1 keys has k - 1 commas and splits back into the keys in order |
| SheetHelper.FieldMaskExample | modules/sheetHelper.js:3-5 | the mask of {Name, Age} is "Name,Age" |
| SheetHelper.TrimEntries | modules/sheetHelper.js:38-39 | the `for…in` loop visits one entry per key, with the keys trimmed and the values untouched |
| SheetHelper.CreateObject | modules/sheetHelper.js:36-42 | the loop builds `TrimKeys(obj)`: distinct keys, which are the trimmed keys without repeats in enumeration order, each holding the value of the last key that trims to it |
| SheetHelper.TrimKeysKeys | modules/sheetHelper.js:36-42 | a key is in `createObject(obj)` exactly when some key of `obj` trims to it, and every key is trimmed |
| SheetHelper.TrimKeysLastWins | modules/sheetHelper.js:36-42 | when keys trim to the same string, the value of the last of them wins |
| SheetHelper.TrimKeysOfTrimmed | modules/sheetHelper.js:36-42 | an object whose keys are already trimmed comes back unchanged |
| SheetHelper.TrimKeysIdempotent | modules/sheetHelper.js:36-42 | `createObject(createObject(obj))` equals `createObject(obj)` |
| SheetHelper.TrimObjectSpace | modules/sheetHelper.js:28-34 | an array stays an array of the same length, each element passed through `createObject` in order; a single object becomes `createObject` of it |
| SheetHelper.TrimObjectSpaceIdempotent | modules/sheetHelper.js:28-34 | `trimObjectSpace` is idempotent |
| SheetHandler.ReadHeader | index.js:204-208 | no rows give no header; otherwise there is one header cell per cell of the first row, each the trimmed cell |
| SheetHandler.HeaderKey | index.js:113 | the key a cell is stored under is a header name, or "undefined"; inside the header it is the name of the cell's column |
| SheetHandler.RowEntries | index.js:112-114 | the row callback assigns cell `index` under `headerRow[index]`, or under "undefined" past the end of the header, in column order |
| SheetHandler.RowToRecord | index.js:110-116 | the per-row loop builds `RecordOfRow`, the successive assignments of the row's cells starting from `{}` |
| SheetHandler.RecordOfRowKeys | index.js:110-116 | for a row no longer than the header, the record's keys are the names heading the row's cells, without repeats, in column order |
| SheetHandler.RecordOfRowCell | index.js:112-114 | the cell of column `i` is the value under its header name unless a later column has the same name; with duplicate names, the later column wins |
| SheetHandler.RecordOfRowAbsent | index.js:110-116 | a name that heads none of the row's cells is absent from the record, not "" |
| SheetHandler.RecordOfRowDistinct | index.js:110-116 | with distinct header names, the record pairs `headerRow[i]` with `row[i]` for each cell, in order |
| SheetHandler.ReadSheet | index.js:101-118 | a range of at most one row answers `{}`; otherwise one record per data row, in order, each built with the trimmed first row as the header |
| SheetHandler.ReadExample | index.js:108-116 | rows ["Alice","30"] and ["Bob"] under header [Name, Age] give {Name, Age} and {Name} only |
| SheetHandler.Cell | index.js:142 | the cell is "" exactly when the field is missing or falsy; otherwise it is the field's value |
| SheetHandler.ProjectRecord | index.js:141-143 | one cell per header name, in header order, each as `Cell` gives it |
| SheetHandler.InsertRows | index.js:140-145 | an array body gives one row per record, each as wide as the header, with the cell of column `j` taken from field `header[j]`; a single-object body has no `map` and fails |
| SheetHandler.ProjectRecordOfRow | index.js:140-145 | with distinct header names, writing back a row that was read gives the row itself, padded with "" up to the header's width |
| SheetHandler.InsertExample | index.js:140-145 | {Name: Alice, Age: 30} and {Name: Bob, Age: ""} project onto [Name, Age] as [Alice, 30] and [Bob, ""] |
| SheetHandler.ExtractRequest | index.js:235-242 | the spreadsheet id is the path up to the first "/"; the sheet id is the next segment, or 0 when there is none or it is empty; the body has its keys trimmed; `rowNo` is passed on |
| SheetHandler.DeleteRange | index.js:169-174 | the deletion covers the rows dimension of the given sheet, from `rowNo` inclusive to `rowNo + 1` exclusive: exactly one row |

## Left out

- I/O, the Google Sheets client and OAuth token handling are not modelled. This covers `getSheets`, `readSheetProperties`, `writeSheet`, the `values.get`/`batchUpdate` calls, `res.send`/`res.json`, and the error callbacks. The model starts from the values these calls return. It ends at the values handed to them.
- The range strings built from `sheetInfo` (`R1C1:R…C…`) and the lookups of a sheet's properties by number are not modelled. They only feed the I/O calls.
- `result.data.values` being undefined for an empty sheet is not modelled; the code would throw there. The model takes the rows as a list.
- `parseInt(req.query.rowNo, 10)` and its `NaN` are not modelled. `Request` carries `rowNo` already read as an integer.
- JavaScript numbers are not modelled as IEEE doubles. Columns and values are unbounded integers. For very large columns `letterToColumn`'s `26 **` and `columnToLetter`'s division lose precision in the source but not in the model. Non-integer and `NaN` columns are not modelled either.
- Strings are sequences of code points. UTF-16 surrogate pairs, which `charCodeAt` would see as two units, are not modelled.
- Object key order is modelled as insertion order. JavaScript lists integer-like keys ("0", "1", …) first in ascending order; that is not modelled. Nor are inherited enumerable properties visited by `for…in`.
- Lookup, Assign, Cell, RecordOfRowCell, CreateObject: keys that name members of `Object.prototype` are not modelled. Objects here have no prototype. In the source, `row["constructor"]` reads the inherited `Object` function, which is truthy. An assignment to `"__proto__"` goes through the prototype setter and adds no own key. The model treats these names as ordinary keys.
- `_.keys` is modelled only for plain objects; lodash itself is not part of this model.
- Records are values. `createObject` returning a fresh object and leaving its argument untouched therefore hold by construction; they are not stated as separate properties.
- Cell values read from a sheet are strings (`Str`). Values in a request body may be any `Value`; nested objects and arrays inside a record are not modelled.
