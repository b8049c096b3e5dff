# Canteen entry logger — verified model of its entry-logging core

The program is a small Streamlit page set. It reads a student's QR code from the
camera. It decodes the three identity fields from the payload: name,
branch/division and roll number. It then checks that the same student has not
entered within the re-entry interval, and stores a timestamped row in the
`student_info` SQLite table. Another page generates the QR payload from three
input fields, and a third page lists or clears the table.

This project models that core in Dafny:

- `text.dfy` (module `Text`) models the Python string operations the decoder uses.
  These are `str.split('\n')`, `str.split(':', 1)[-1]` and `str.strip()` with
  Python's whitespace set. The module also has SQLite's BINARY order on TEXT
  values, which `ORDER BY timestamp` uses.
- `payload.dfy` (module `Payload`) holds the payload codec. `Encode` is the
  generator's f-string. `Generate` adds the non-empty guard. `DecodePayload` is
  the decoding loop, proved equal to the fold `Decode`. The lemmas say what
  `Decode` extracts, and when decoding an encoded identity gives it back.
- `timestamp.dfy` (module `Timestamp`) models the `%Y-%m-%d %H:%M:%S` text of
  the `timestamp` column. It has formatting, strict parsing and seconds since
  0001-01-01 (Python's ordinal arithmetic). It proves that the zero-padded text
  sorts in chronological order.
- `policy.dfy` (module `Policy`) holds the re-entry rule on whole seconds, with
  `THRESHOLD = 30`.
- `student_info.dfy` (module `StudentInfo`) models the table. `Table` is a class
  whose `rows` field `Insert`, `ClearAll` and `Scan` update in place. It also
  has the `last entry` query (`LastEntry`), `can_enter_data` (`CanEnterData`)
  and SQLite's rule for the next `INTEGER PRIMARY KEY` (`NextId`).

Where the code and the design description of the program differ, the model
follows the code:

- The comment above `can_enter_data` and the denial message say "20 hours".
  The comparison is against 30 seconds (main.py:58), so `THRESHOLD` is 30.
- The scan path checks nothing about the decoded fields. `NOT NULL` does not
  reject `''`, so a payload without any recognised label is stored as a row
  with empty fields. Only the generator page requires non-empty inputs.
- Row ids follow SQLite's rowid rule: one more than the largest id, or 1 in an
  empty table. Ids are therefore reused after the table is cleared, rather than
  increasing forever.
- A stored timestamp that does not parse makes `strptime` raise `ValueError`.
  The model reports this as the outcome `MalformedTimestamp` and inserts
  nothing. It does not treat the row as "no prior entry".

## Model

| member | source | states |
|---|---|---|
| `Text.StripSpec` | main.py:141 | `strip()` keeps the slice with only whitespace outside it and no whitespace at either of its ends |
| `Text.StripFixesTrimmed` | main.py:141 | `strip()` leaves a string unchanged exactly when it has no whitespace at either end |
| `Text.AfterFirstSpec` | main.py:141 | `split(":", 1)[-1]` is the suffix after the first colon, or the whole line when it has none |
| `Text.AfterFirstLabel` | main.py:140-145 | after a label ending in its only colon, the rest of the line is kept whole, later colons included |
| `Text.SplitJoin` | main.py:137 | `split('\n')` gives back the pieces that were joined with newlines, when no piece holds a newline |
| `Text.JoinSplit` | main.py:137 | joining the pieces of `split('\n')` with newlines gives back the text: splitting loses nothing |
| `Text.TextLessTotal` | main.py:51 | the TEXT order of `ORDER BY timestamp` puts any two different texts one before the other |
| `Text.TextLessTransitive` | main.py:51 | the TEXT order is transitive |
| `Text.TextLessBlocks` | main.py:51 | texts that start with equal-width blocks compare by the blocks first and by the rest on a tie |
| `Payload.Generate` | main.py:205-207 | a payload is produced exactly when all three inputs are non-empty, and it decodes back to them exactly when they are one-line and unpadded |
| `Payload.DecodePayload` | main.py:137-145 | the decoding loop over the lines computes `Decode` of the payload |
| `Payload.StepField` | main.py:139-145 | a line sets the field whose label it starts with to the line's value and keeps the other fields |
| `Payload.LabelledLineValue` | main.py:140-145 | a line `label + t` has value `strip(t)`, with every colon after the label kept |
| `Payload.DecodeLast` | main.py:139-145 | the last line that starts with a field's label decides that field |
| `Payload.DecodeAbsent` | main.py:138-145 | a field whose label starts no line decodes to `''` |
| `Payload.UnlabelledLineIgnored` | main.py:139-145 | removing a line that starts with no label, anywhere in the payload, changes nothing |
| `Payload.DecodeClean` | main.py:137-145 | every decoded field is a single line with no surrounding whitespace |
| `Payload.EncodeSplits` | main.py:207 | the generated payload splits into exactly the three `Label: value` lines when no value holds a newline |
| `Payload.DecodeEncodedLines` | main.py:138-145 | the three generated lines decode to the identity when its values are one-line and unpadded |
| `Payload.RoundTrip` | main.py:137-145 | decoding the generated payload gives the identity back if and only if every field is one-line and unpadded |
| `Payload.DecodeExample` | main.py:137-145 | the lines `Name: Asha`, `Branch/Division: CS` and `Roll Number: 17` decode to ("Asha", "CS", "17") |
| `Timestamp.ParseFormat` | main.py:55 | parsing the text `strftime` wrote gives back the same date and time |
| `Timestamp.FormatParse` | main.py:149 | every text that parses is exactly the `strftime` text of what it parses to |
| `Timestamp.FormatOrder` | main.py:51 | for valid timestamps, TEXT order of the formatted strings is chronological order |
| `Timestamp.YearLength` | main.py:57 | Python's day count grows by 366 across a leap year and by 365 across any other year |
| `Timestamp.BeforeSeconds` | main.py:57 | a chronologically earlier timestamp has fewer seconds |
| `Timestamp.SecondsOrder` | main.py:57 | chronological order and equality are exactly the order and equality of the seconds count |
| `Policy.FirstEntryAllowed` | main.py:59-60 | an identity with no stored entry is let in |
| `Policy.ThresholdBoundary` | main.py:58 | exactly 30 seconds after the last entry is allowed, and 29 seconds is denied |
| `Policy.AllowedLater` | main.py:58 | once the interval has passed, entry stays allowed |
| `Policy.WholeSecondsSuffice` | main.py:56-58 | comparing the fractional elapsed time with 30 gives the same answer as comparing whole seconds |
| `StudentInfo.LastEntry` | main.py:51-53 | the query finds nothing exactly when no row has all three fields equal to the key, and otherwise returns the timestamp of such a row |
| `StudentInfo.LastEntryIsGreatest` | main.py:51-53 | no matching row has a timestamp after the one the query returns |
| `StudentInfo.CanEnterDataMeaning` | main.py:49-60 | on well-formed rows the check never fails, and it lets an identity in exactly when all of its entries are at least 30 seconds before now |
| `StudentInfo.StoredEntryIsLatest` | main.py:147-159 | after an allowed entry is stored, the query for that identity returns the new timestamp |
| `StudentInfo.ReentryScenario` | main.py:49-60 | a first scan is allowed, and a second scan of that identity is denied at 29 seconds and allowed at 30 and 31 seconds |
| `StudentInfo.NextId` | main.py:35 | the next id is 1 in an empty table and otherwise one more than the largest id, so it differs from every stored id |
| `StudentInfo.Table.constructor` | main.py:30-41 | a newly created table is empty |
| `StudentInfo.Table.Insert` | main.py:157-159 | exactly one row is appended, with the given fields and the next id, and ids stay distinct |
| `StudentInfo.Table.ClearAll` | main.py:193 | the table becomes empty, and no identity has an entry any more |
| `StudentInfo.Table.Scan` | main.py:133-164 | no payload means no change; an allowed scan appends exactly one row with the decoded fields and the formatted `now`, which is then the identity's latest entry; a denied or failing scan changes nothing; well-formed timestamps stay well-formed |

## Left out

- The Streamlit user interface: page selection, buttons, `st.write`, `st.success`, `st.error` and `st.warning` messages (main.py:104-228). `Scan` returns an `Outcome` value instead.
- The camera capture, the grayscale conversion and `pyzbar` QR detection (main.py:124-135). These are foreign library calls. `Scan` takes the list of decoded payload texts as a parameter, and an empty list is the "no QR code found" case.
- The UTF-8 decoding of the QR bytes (main.py:136). Payloads are given as strings of code points.
- The QR image rendering and the name caption in `generate_qr_code_with_name`, and the PNG file and download link (main.py:65-87, main.py:208-228). These are image library calls. The global `name` they read is an artefact of the UI.
- The database listing page and the CSV export (main.py:90-100, main.py:171-187). They only read the rows and reformat them through pandas and base64.
- The SQLite connection and its error handling (main.py:19-25). If `create_connection` returns `None`, `can_enter_data` would fail on `conn.cursor()`; this crash is not modelled.
- The SQL DDL of `create_table` and its idempotence (main.py:30-44). The constructor models a newly created, empty table. `Scan` accepts any existing rows with distinct ids.
- Row ids past 2^63-1, where SQLite switches to random ids.
- `datetime.now()`: the current time is a parameter. The source reads the clock twice, once in `can_enter_data` and once before the insert (main.py:56, main.py:149). The model uses one instant for both.
- Microseconds of `now`: they are dropped by the stored format. `Policy.WholeSecondsSuffice` shows they cannot change the decision.
- Timestamps are naive local time, as in the source. A clock change (daylight saving) is not modelled.
- Timestamp.Parse accepts only the zero-padded form that `strftime` writes. Python's `strptime` also accepts one-digit month, day, hour, minute and second fields. Such texts can only come from other writers to the database file.
- Timestamp.Format pads years below 1000 to four digits. Some C libraries print them unpadded.
- SQLite compares TEXT by UTF-8 bytes, and `Text.TextLess` compares code points. The two orders agree on valid UTF-8, and the timestamp texts are ASCII.
