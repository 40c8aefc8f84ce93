# Airline seat reservations, modelled in Dafny

This project models the core of a small seat-reservation system for a fleet of aircraft.

- **`Airplane`** (`airplane.dfy`, module `Airplanes`) holds one aircraft's reservation state: a name, a row count, a row layout whose `'x'` characters are seats, and a set of reserved seat names.
- A seat name is a row letter (`'A'` for row 0) followed by the zero-based position in decimal, so `"A5"` is row 0, position 5.
- The airplane checks, books and cancels blocks of consecutive seats in one row. It converts itself to and from a plain record.
- **`Airline`** (`airline.dfy`, module `Airlines`) is a registry of airplanes keyed by name. It adds, deletes, looks up and lists planes.
- An airline saves its fleet to a snapshot file whose name must end in `.snap`. Loading a snapshot merges its planes into the fleet by name; it never replaces the fleet wholesale.
- `decimal.dfy` (module `Decimal`) models Python's `str(int)` and `int(str)` as far as seat names need them. `wrappers.dfy` holds `Option` and two sequence facts.

How things are modelled:

- Both classes are Dafny classes. Their methods modify only the fields the Python code assigns.
- Booking and cancelling are specified by the functions `BookOutcome` and `CancelOutcome` over the reserved set. The lemmas state what those functions mean.
- The file system is a value, `Files = map<string, FileContent>`. What `yaml.safe_load` returns is the datatype `Document`: falsy, a mapping, or something else. A plane list entry is either a complete record or one that `from_dict` raises on.
- Whether a write succeeds is a parameter of `SaveSnapshot`. A dump that fails after `open(..., 'w')` carries the content left in the truncated file, which may be empty and then loads as an empty document.
- A Python dict keeps keys in insertion order. `Airline` records that order in the field `order`, so `get_airplane_names` and `to_dict` are deterministic, as they are in Python.

Behaviour reproduced as the code has it, where it differs from what a reader might expect:

- `cancel_seats` is not all-or-nothing. When it meets an unreserved seat it returns `False`, but the seats before that one are already released (airplane.py:288-293). `CancelOutcomeSpec` states this in general. `CancelIsNotAllOrNothing` shows it: with only A1 reserved, cancelling A1-A2 fails and leaves nothing reserved.
- The `name` setter validates its argument but assigns `_airplane_name`, not `_name` (airplane.py:59-61). A rename therefore has no visible effect, although the doctest at airplane.py:55-57 expects one. `Airplane.SetName` writes the separate field `airplaneName` and leaves `name` unchanged. As a side effect, planes cannot be renamed behind `Airline`'s back, so its key invariant is safe.
- The constructor validates neither the name nor the row count (airplane.py:28-29).
- There is no default-airplane field; the registry holds only its name, its planes and its default snapshot file name.
- A count of zero or less passes `check_consecutive_seats` without any seat being examined (airplane.py:150-159). Because the bounds test is `start_pos + num_seats > seats_per_row`, a negative count even admits a start past the end of the row, and `book_seats` then returns `True` and books nothing (`NonPositiveCountPasses`).
- Seat names are not canonicalised: `"A01"` has the same index as `"A1"` but is a different string (`LeadingZeroAliasesSeat`). `book_seat` stores whatever string it is given.
- Loading replaces every listed plane by a new object built with `from_dict`. A plane object obtained earlier with `get_airplane` is then no longer the one stored.

## Model

| member | source | states |
|---|---|---|
| `Decimal.ParseInt` | airplane.py:87 | `int()` succeeds exactly on an optional sign followed by at least one decimal digit (leading zeros allowed); a negative result needs a leading `-` |
| `Decimal.NatToStringValue` | airplane.py:112 | `str(n)` of a non-negative integer is a non-empty string of decimal digits whose value is `n` and which starts with `0` only when it is `"0"` |
| `Decimal.IntToStringShape` | airplane.py:112 | `str(n)` starts with `-` exactly when `n` is negative, and the rest is a non-empty digit string with the value `abs(n)` and no leading zero (other than `"0"` itself) |
| `Decimal.ParseIntOfIntToString` | airplane.py:87-112 | `int(str(n)) == n` for every integer `n` |
| `Decimal.IntToStringInjective` | airplane.py:112 | different positions give different decimal strings |
| `Decimal.ParseIntExamples` | airplane.py:87 | `"01"` parses to 1, `"-1"` to -1, `"+7"` to 7; `""`, `"-"` and `"1x"` are rejected |
| `Airplanes.CountSeats` | airplane.py:32 | `seats_per_row` is the number of `'x'` characters of the layout (their multiplicity in it), at most its length |
| `Airplanes.DefaultLayoutHasEightSeats` | airplane.py:17-23 | the layout `"xx_xxxx_xx"` has 8 seats per row |
| `Airplanes.SeatName` | airplane.py:112 | `get_seat_name` yields at least two characters whose first encodes the row as an offset from `'A'` |
| `Airplanes.SplitSeatName` | airplane.py:83-89 | a name splits into a row and a position exactly when it has at least two characters and its tail is an integer numeral; the row is the first character's offset from `'A'`, the position the parsed tail |
| `Airplanes.SeatIndex` | airplane.py:83-93 | `get_seat_index` is defined exactly for well-formed names on the plane; then it is a flat index in `[0, row_count*seats_per_row)` whose quotient and remainder by `seats_per_row` are the row and the position |
| `Airplanes.SeatIndexOfSeatName` | airplane.py:83-112 | round trip: for an on-plane row and position, `get_seat_index(get_seat_name(r, p)) == r*seats_per_row + p` |
| `Airplanes.SeatNameOfSeatIndex` | airplane.py:83-112 | every name with an index has the row letter of the canonical name of that index, and the canonical name has the same index |
| `Airplanes.SeatIndexExamples` | airplane.py:72-80 | with 3 rows of 8 seats: `A1` is 1, `B0` is 8, `D0` and `A9` are out of range; `A`, `Ax`, `A-1` are rejected |
| `Airplanes.LeadingZeroAliasesSeat` | airplane.py:87 | `"A01"` and `"A1"` denote the same seat index but are different names |
| `Airplanes.BlockSeatInjective` | airplane.py:155 | the seats of a block have pairwise different names |
| `Airplanes.CancelFromAnswer` | airplane.py:288-295 | the cancel loop from offset `i` answers true exactly when every remaining seat of the block is reserved |
| `Airplanes.CancelFromReleased` | airplane.py:288-295 | a successful cancel loop from offset `i` releases exactly the remaining seats |
| `Airplanes.CancelFromStops` | airplane.py:288-293 | a failing cancel loop stops at the first unreserved seat, having released exactly the seats before it |
| `Airplanes.CancelFromSpec` | airplane.py:288-295 | the cancel loop from offset `i` succeeds iff every remaining seat is reserved, then releases them all; otherwise it stops at the first unreserved seat having released exactly the seats before it |
| `Airplanes.CancelOutcomeSpec` | airplane.py:274-295 | a block that does not fit changes nothing and answers false; a fitting block answers true iff all its seats are reserved and then releases exactly them; a false answer on a fitting block names the first unreserved seat (every seat before it was reserved) and releases exactly the seats before it |
| `Airplanes.BookThenCancel` | airplane.py:212-295 | a successful `book_seats` followed by `cancel_seats` of the same block answers true and restores the reserved set |
| `Airplanes.BookAddsExactlyTheBlock` | airplane.py:216-225 | a successful booking keeps the old reservations, reserves every seat of the block, and grows the set by exactly `num_seats` (none for a non-positive count) |
| `Airplanes.Airplane.constructor` | airplane.py:9-34 | the fields are the arguments, unvalidated, with the defaults of 20 rows and layout `"xx_xxxx_xx"`; `seats_per_row` is the layout's seat count; nothing is reserved |
| `Airplanes.DefaultsExample` | airplane.py:9-42 | `Airplane("TA101")` has 20 rows of layout `"xx_xxxx_xx"`, 8 seats per row, and nothing reserved |
| `Airplanes.Strip` | airplane.py:59 | `s.strip()` is empty exactly when every character of `s` is whitespace; otherwise it starts and ends with a non-space; it is what follows the leading whitespace of `s`, and every character of `s` before or after it is whitespace |
| `Airplanes.IsSpaceExamples` | airplane.py:59 | space, tab, newline, the no-break space and the ideographic space are whitespace for `strip`; letters, `_`, NUL and the zero-width space are not; `""` and `" \t\n"` are blank and `" a "` is not |
| `Airplanes.Airplane.SetName` | airplane.py:59-61 | a name that strips to nothing (empty or all whitespace) is refused; otherwise the name goes to `_airplane_name`, and `name` is unchanged; the class invariant is kept |
| `Airplanes.Airplane.CheckConsecutiveSeats` | airplane.py:139-159 | answers true iff the start parses to a row in range, `start_pos >= 0`, `start_pos + n <= seats_per_row`, and none of the `n` named seats is reserved; changes nothing |
| `Airplanes.Airplane.BookSeat` | airplane.py:183-187 | inserts the name and answers whether it was absent |
| `Airplanes.Airplane.BookSeats` | airplane.py:189-225 | the count defaults to one; on a failed check answers false and changes nothing; otherwise answers true and adds exactly the block's seats; only the reserved set can change and the class invariant is kept |
| `Airplanes.BookOneSeat` | airplane.py:189-225 | with the default count of one and a start that passes the bounds test, `book_seats` answers whether the start seat was free and leaves it reserved, like `book_seat` on that seat |
| `Airplanes.Airplane.CancelSeat` | airplane.py:249-252 | removes the name and answers whether it was present |
| `Airplanes.Airplane.CancelSeats` | airplane.py:254-295 | the count defaults to one; answer and new reserved set are those of `CancelOutcome` on the old set: malformed or out-of-bounds starts change nothing, and the loop releases seats until the first unreserved one |
| `Airplanes.Airplane.ToDict` | airplane.py:316-321 | the record has the plane's name, row count and layout, and lists each reserved seat exactly once |
| `Airplanes.Airplane.FromDict` | airplane.py:343-345 | a new plane whose name, row count and layout are the record's and whose reserved set is the set of the record's seats |
| `Airplanes.DictRoundTrip` | airplane.py:316-345 | `from_dict(to_dict(p))` has the same name, row count, layout, seats per row and reserved set as `p` |
| `Airplanes.CheckExamples` | airplane.py:125-136 | on 8 seats per row: `A1`+3 and `A0`+8 are free; with A1 reserved, `A1`+3 is not, `A3`+5 (exactly filling the row) is, `A9`+2 is not; `A4`+5 overruns the row |
| `Airplanes.NonPositiveCountPasses` | airplane.py:150-159 | a negative count starting past the row's end passes the check, and booking it answers true and reserves nothing |
| `Airplanes.CancelIsNotAllOrNothing` | airplane.py:288-293 | with only A1 reserved, cancelling A1-A2 answers false and releases A1 |
| `Airlines.HasSnapSuffixIff` | airline.py:236 | `endswith('.snap')` holds exactly for a string that is some text followed by `.snap` |
| `Airlines.DefaultSnapshotFilename` | airline.py:34 | the default file name is the airline name with each space turned into `_`, each ASCII capital lowered (code plus 32) and every other character kept, followed by `.snap`; hence no space and no ASCII capital in the name part, and `_` exactly where the name had a space or an underscore |
| `Airlines.DefaultSnapshotFilenameExample` | airline.py:25 | `"Test Airways"` gives `"test_airways.snap"` |
| `Airlines.FirstMalformed` | airline.py:204-210 | the index of the first plane entry `from_dict` raises on, or the list's length: every entry before it is complete |
| `Airlines.MergeKeys` | airline.py:204-207 | after the upserts the fleet's keys are the old keys plus the snapshot planes' names |
| `Airlines.MergeKeepsOthers` | airline.py:203-207 | planes whose names the snapshot does not mention are kept unchanged, and no other key appears |
| `Airlines.MergeLastWins` | airline.py:204-207 | a plane named in the snapshot ends up with the state of the last entry carrying its name |
| `Airlines.MergeKeyedByName` | airline.py:205-207 | upserting by `airplane_obj.name` keeps every plane stored under its own name |
| `Airlines.MergeOrderSpec` | airline.py:207 | the dict's key order stays free of duplicates, lists exactly the old keys and the snapshot's names, and keeps the old keys in their places at the front |
| `Airlines.MergeRestores` | airline.py:174-184 | merging a whole fleet's records into a registry holding some of its planes (or none) yields exactly that fleet |
| `Airlines.Remove` | airline.py:94 | deleting a key from the key order keeps every other key, drops that one, and keeps the order free of duplicates |
| `Airlines.RemoveKeepsOrder` | airline.py:94 | the keys left after a deletion are in their old relative order |
| `Airlines.Airline.constructor` | airline.py:30-34 | the name is stored, the fleet is empty, and the default snapshot file name is derived from the name |
| `Airlines.KeyedFleetUpsert` | airline.py:205-207 | storing a plane under its own name, with a new name appended to the key order, keeps every plane under its own name and the order duplicate-free and complete |
| `Airlines.KeyedFleetRemove` | airline.py:93-94 | deleting a key from the planes and from the key order keeps that invariant |
| `Airlines.Airline.FleetKeyedByName` | airline.py:31-32 | every key of the fleet is the name of the plane stored under it |
| `Airlines.Airline.AddAirplane` | airline.py:36-65 | the row count and layout default to 20 and `"xx_xxxx_xx"`; an existing name answers false and leaves planes and order unchanged; otherwise a new empty plane is stored under the name, appended to the key order, and no other plane changes |
| `Airlines.Airline.DeleteAirplane` | airline.py:93-96 | removes exactly the named key and answers whether it was present; the other keys keep their order; an absent key changes nothing |
| `Airlines.Airline.GetAirplane` | airline.py:117 | the stored plane when the name is a key, `None` otherwise; a returned plane carries that name |
| `Airlines.Airline.GetAirplaneNames` | airline.py:138 | exactly the keys, each once, as many as there are planes |
| `Airlines.Airline.ToDict` | airline.py:157-160 | the airline's name and one record per plane, in key order, each describing that plane and listing each of its reserved seats once |
| `Airlines.Airline.SaveSnapshot` | airline.py:232-246 | a file name without `.snap` answers false and writes nothing; a failed open writes nothing; a failed dump leaves at the path whatever part of the document reached the truncated file (nothing, a prefix that still parses, or unparsable text); a successful write stores the fleet's snapshot at that path and touches no other file |
| `Airlines.Airline.LoadSnapshot` | airline.py:190-212 | a missing, unreadable or non-mapping file answers false with no change; an empty document answers true with no change; otherwise the fleet becomes the merge of the snapshot's planes up to the first malformed entry, unlisted planes stay the same objects, and the answer is whether no entry was malformed |
| `Airlines.Airline.MergeEntries` | airline.py:202-210 | the loop of `load_snapshot`: the fleet and key order become the merge of the entries before the first malformed one, and the answer is whether there was none |
| `Airlines.Airline.Upsert` | airline.py:205-207 | one upsert: the new plane is stored under its name, a new name goes to the end of the key order, an existing one keeps its place |
| `Airlines.SaveDeleteLoadRestores` | airline.py:169-184 | saving and loading both answer true, and saving, deleting a plane and loading the same file brings the plane back and leaves the whole fleet as it was before the save |

## Left out

- `cli.py` is not part of this model. It parses arguments, reads environment variables, prints usage text and reports SUCCESS/FAIL, so it is only a driver.
- The `log` methods and the `DEBUG` environment flag only print to the console, so they are not modelled.
- YAML text is not modelled. `yaml.safe_load` is represented by the `Document` it returns, and `yaml.dump` by the document written. Key order and flow style of the text are therefore outside the model.
- File access is abstracted. Real files and `os.path.exists` become membership in the `Files` map. Read failures become `Unreadable` content. Write failures are the `WriteResult` parameter. The stderr messages of the `except` blocks are left out.
- `Decimal.ParseInt`: Python's `int()` also accepts surrounding whitespace, `_` between digits and non-ASCII decimal digits. The model rejects these, so a name such as `"A 1"`, valid in Python, is malformed here. In the other direction, since Python 3.11 `int()` raises on a numeral of more than 4300 digits (`sys.get_int_max_str_digits()`), and the model parses those, so `"A" + "0"*4300 + "1"` has index 1 here.
- `Decimal.IntToStringShape`: likewise, Python 3.11's `str()` raises for an integer of more than 4300 digits; the model converts every integer. No seat position on a plane is that large.
- `Airplanes.SeatName`: Python's `chr` also accepts surrogate code points, and Dafny strings cannot hold them. The model requires `ord('A') + row` to be a Unicode scalar value. Rows from a parsed name always are.
- `Airlines.DefaultSnapshotFilename`: only ASCII letters are lower-cased. Python's `str.lower` maps all of Unicode and can change a string's length.
- `Airlines.Entry`: plane list entries whose fields have other YAML types are not represented. Examples are a non-string name, or seats given as numbers. `from_dict` rejects some of these and silently keeps others.
- `Airlines.Document`: a document without an `airplanes` key lists no planes. One whose `airplanes` value is not a list (null, a string, a mapping) is not represented. For most such values Python raises inside the loop and answers `False`.
- `Airplanes.Airplane.ToDict`: `list(set)` produces Python's hash order. The model promises only some order without repetitions.
