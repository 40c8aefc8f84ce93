/**
 * One aircraft's seat map: the seat-name codec, contiguous-block checks, booking and
 * cancelling, and conversion to and from a plain record.
 *
 * A seat name is a row letter (`'A'` for row 0, `'B'` for row 1, ...) followed by the
 * zero-based position in decimal, so row 0 position 5 is "A5".
 */
module Airplanes {
  import opened Wrappers
  import opened Decimal

  /** The constructor's default arguments. */
  const DefaultRowCount := 20
  const DefaultRowLayout := "xx_xxxx_xx"

  /** The number of seats a row layout describes: one per `'x'`; other characters are aisles. */
  function CountSeats(layout: string): (n: nat)
    ensures n == multiset(layout)['x']
    ensures n <= |layout|
  {
    if layout == [] then 0
    else
      assert layout == [layout[0]] + layout[1..];
      (if layout[0] == 'x' then 1 else 0) + CountSeats(layout[1..])
  }

  lemma DefaultLayoutHasEightSeats()
    ensures CountSeats(DefaultRowLayout) == 8
  {
  }

  /** `chr(ord('A') + row)` exists as a character. */
  predicate IsRowLetter(row: int) {
    var c := 'A' as int + row;
    0 <= c < 0xD800 || 0xE000 <= c < 0x11_0000
  }

  /** `get_seat_name`: the row letter followed by the decimal position; no bounds are checked. */
  function SeatName(row: int, position: int): (s: string)
    requires IsRowLetter(row)
    ensures |s| >= 2 && s[0] as int - 'A' as int == row
  {
    [('A' as int + row) as char] + IntToString(position)
  }

  /** A seat name taken apart: its row and position, not yet checked against the plane. */
  datatype SeatRef = SeatRef(row: int, position: int)

  /** The parsing both `get_seat_index` and the block operations start with. */
  function SplitSeatName(seatName: string): (r: Option<SeatRef>)
    ensures r.Some? <==> |seatName| >= 2 && IsNumeral(seatName[1..])
    ensures r.Some? ==> IsRowLetter(r.value.row) && r.value.row == seatName[0] as int - 'A' as int
    ensures r.Some? ==> ParseInt(seatName[1..]) == Some(r.value.position)
  {
    if |seatName| < 2 then None
    else
      match ParseInt(seatName[1..])
      case None => None
      case Some(position) => Some(SeatRef(seatName[0] as int - 'A' as int, position))
  }

  predicate OnPlane(seat: SeatRef, rowCount: int, seatsPerRow: int) {
    0 <= seat.row < rowCount && 0 <= seat.position < seatsPerRow
  }

  /**
   * `get_seat_index`: the flat index `row * seatsPerRow + position` of a well-formed seat
   * name that lies on the plane, and `None` otherwise.
   */
  function SeatIndex(seatName: string, rowCount: int, seatsPerRow: nat): (r: Option<int>)
    ensures r.Some? <==> SplitSeatName(seatName).Some? && OnPlane(SplitSeatName(seatName).value, rowCount, seatsPerRow)
    ensures r.Some? ==>
      var seat := SplitSeatName(seatName).value;
      0 <= r.value < rowCount * seatsPerRow &&
      r.value / seatsPerRow == seat.row && r.value % seatsPerRow == seat.position
  {
    match SplitSeatName(seatName)
    case None => None
    case Some(seat) =>
      if seat.row < 0 || seat.row >= rowCount || seat.position < 0 || seat.position >= seatsPerRow then None
      else
        FlatIndexBounds(seat.row, seat.position, rowCount, seatsPerRow);
        Some(seat.row * seatsPerRow + seat.position)
  }

  lemma FlatIndexBounds(row: int, position: int, rowCount: int, seatsPerRow: nat)
    requires 0 <= row < rowCount && 0 <= position < seatsPerRow
    ensures 0 <= row * seatsPerRow + position < rowCount * seatsPerRow
    ensures (row * seatsPerRow + position) / seatsPerRow == row
    ensures (row * seatsPerRow + position) % seatsPerRow == position
  {
    var k := row * seatsPerRow + position;
    assert (row + 1) * seatsPerRow == k - position + seatsPerRow;
    MulAtLeast(rowCount - row, seatsPerRow);
    assert rowCount * seatsPerRow == (rowCount - row) * seatsPerRow + row * seatsPerRow;
    var q, r := k / seatsPerRow, k % seatsPerRow;
    assert (q - row) * seatsPerRow == position - r;
    if q - row >= 1 {
      MulAtLeast(q - row, seatsPerRow);
    } else if q - row <= -1 {
      MulAtLeast(row - q, seatsPerRow);
    }
  }

  lemma MulAtLeast(a: int, b: nat)
    requires a >= 1
    ensures a * b >= b
  {
    assert a * b == (a - 1) * b + b;
  }

  /** Round trip: the name `get_seat_name` gives an on-plane seat decodes to that seat's index. */
  lemma SeatIndexOfSeatName(row: int, position: int, rowCount: int, seatsPerRow: nat)
    requires 0 <= row < rowCount && 0 <= position < seatsPerRow && IsRowLetter(row)
    ensures SeatIndex(SeatName(row, position), rowCount, seatsPerRow) == Some(row * seatsPerRow + position)
  {
    var s := SeatName(row, position);
    assert s[1..] == IntToString(position);
    ParseIntOfIntToString(position);
    FlatIndexBounds(row, position, rowCount, seatsPerRow);
  }

  /**
   * The other direction: every name with an index shares its row letter with the canonical
   * name of that index, and the canonical name has the same index.
   */
  lemma SeatNameOfSeatIndex(seatName: string, rowCount: int, seatsPerRow: nat)
    requires SeatIndex(seatName, rowCount, seatsPerRow).Some?
    ensures var k := SeatIndex(seatName, rowCount, seatsPerRow).value;
      IsRowLetter(k / seatsPerRow) &&
      SeatName(k / seatsPerRow, k % seatsPerRow)[0] == seatName[0] &&
      SeatIndex(SeatName(k / seatsPerRow, k % seatsPerRow), rowCount, seatsPerRow) == Some(k)
  {
    var k := SeatIndex(seatName, rowCount, seatsPerRow).value;
    var seat := SplitSeatName(seatName).value;
    SeatIndexOfSeatName(seat.row, seat.position, rowCount, seatsPerRow);
  }

  /** With three rows of eight seats. */
  lemma SeatIndexExamples()
    ensures SeatIndex("A1", 3, 8) == Some(1)
    ensures SeatIndex("B0", 3, 8) == Some(8)
    ensures SeatIndex("D0", 3, 8) == None
    ensures SeatIndex("A9", 3, 8) == None
    ensures SeatIndex("A", 3, 8) == None && SeatIndex("Ax", 3, 8) == None && SeatIndex("A-1", 3, 8) == None
  {
    ParseIntExamples();
    assert ParseInt("1") == Some(1) && ParseInt("0") == Some(0) && ParseInt("9") == Some(9);
  }

  /**
   * Names are not canonicalised: "A01" denotes seat A1 for `get_seat_index`, but it is a
   * different string, so a set of reserved names can hold the same seat twice.
   */
  lemma LeadingZeroAliasesSeat()
    ensures SeatIndex("A01", 2, 8) == SeatIndex(SeatName(0, 1), 2, 8) == Some(1)
    ensures "A01" != SeatName(0, 1)
  {
    ParseIntExamples();
    SeatIndexOfSeatName(0, 1, 2, 8);
  }

  // ---------------------------------------------------------------------------------------
  // Blocks of consecutive seats in one row

  /** The bounds test of `check_consecutive_seats` and `cancel_seats`. */
  predicate BlockFits(startSeatName: string, numSeats: int, rowCount: int, seatsPerRow: int) {
    var r := SplitSeatName(startSeatName);
    r.Some? && 0 <= r.value.row < rowCount && 0 <= r.value.position && r.value.position + numSeats <= seatsPerRow
  }

  /** The name of the `i`-th seat of the block starting at `startSeatName`. */
  function BlockSeat(startSeatName: string, i: int): string
    requires SplitSeatName(startSeatName).Some?
  {
    var start := SplitSeatName(startSeatName).value;
    SeatName(start.row, start.position + i)
  }

  function BlockRange(startSeatName: string, lo: int, hi: int): set<string>
    requires SplitSeatName(startSeatName).Some?
  {
    set i | lo <= i < hi :: BlockSeat(startSeatName, i)
  }

  lemma BlockRangeSnoc(startSeatName: string, lo: int, hi: int)
    requires SplitSeatName(startSeatName).Some? && lo <= hi
    ensures BlockRange(startSeatName, lo, hi + 1) == BlockRange(startSeatName, lo, hi) + {BlockSeat(startSeatName, hi)}
  {
  }

  lemma BlockRangeCons(startSeatName: string, lo: int, hi: int)
    requires SplitSeatName(startSeatName).Some? && lo < hi
    ensures BlockRange(startSeatName, lo, hi) == {BlockSeat(startSeatName, lo)} + BlockRange(startSeatName, lo + 1, hi)
  {
  }

  /** Different offsets name different seats. */
  lemma BlockSeatInjective(startSeatName: string, i: int, j: int)
    requires SplitSeatName(startSeatName).Some?
    requires BlockSeat(startSeatName, i) == BlockSeat(startSeatName, j)
    ensures i == j
  {
    var start := SplitSeatName(startSeatName).value;
    var a, b := BlockSeat(startSeatName, i), BlockSeat(startSeatName, j);
    assert a[1..] == IntToString(start.position + i);
    assert b[1..] == IntToString(start.position + j);
    IntToStringInjective(start.position + i, start.position + j);
  }

  /**
   * What `check_consecutive_seats` answers: the block lies inside one row and none of its
   * seats is reserved. A count of zero or less passes whenever the bounds test does.
   */
  predicate BlockFree(reserved: set<string>, startSeatName: string, numSeats: int, rowCount: int, seatsPerRow: int) {
    BlockFits(startSeatName, numSeats, rowCount, seatsPerRow) &&
    forall i :: 0 <= i < numSeats ==> BlockSeat(startSeatName, i) !in reserved
  }

  /** `book_seats`: the answer and the reserved set afterwards. */
  function BookOutcome(reserved: set<string>, startSeatName: string, numSeats: int, rowCount: int, seatsPerRow: int): (bool, set<string>) {
    if BlockFree(reserved, startSeatName, numSeats, rowCount, seatsPerRow) then
      (true, reserved + BlockRange(startSeatName, 0, numSeats))
    else
      (false, reserved)
  }

  /**
   * The loop of `cancel_seats` from offset `i` on: each reserved seat is released in turn,
   * and the first one that is not reserved stops it with `false`, keeping what was released.
   */
  function CancelFrom(reserved: set<string>, startSeatName: string, i: int, numSeats: int): (bool, set<string>)
    requires SplitSeatName(startSeatName).Some?
    decreases numSeats - i
  {
    if i >= numSeats then (true, reserved)
    else if BlockSeat(startSeatName, i) in reserved then
      CancelFrom(reserved - {BlockSeat(startSeatName, i)}, startSeatName, i + 1, numSeats)
    else (false, reserved)
  }

  /** `cancel_seats`: the answer and the reserved set afterwards. */
  function CancelOutcome(reserved: set<string>, startSeatName: string, numSeats: int, rowCount: int, seatsPerRow: int): (bool, set<string>) {
    if BlockFits(startSeatName, numSeats, rowCount, seatsPerRow) then CancelFrom(reserved, startSeatName, 0, numSeats)
    else (false, reserved)
  }

  /** Releasing the block's seat `i` leaves its later seats as they were. */
  lemma ReleaseKeepsLater(reserved: set<string>, startSeatName: string, i: int)
    requires SplitSeatName(startSeatName).Some?
    ensures forall j :: i < j ==>
      (BlockSeat(startSeatName, j) in reserved - {BlockSeat(startSeatName, i)} <==> BlockSeat(startSeatName, j) in reserved)
  {
    forall j | i < j
      ensures BlockSeat(startSeatName, j) in reserved - {BlockSeat(startSeatName, i)} <==> BlockSeat(startSeatName, j) in reserved
    {
      if BlockSeat(startSeatName, j) == BlockSeat(startSeatName, i) { BlockSeatInjective(startSeatName, i, j); }
    }
  }

  /** Releasing seat `i` and then the range after it releases the range from `i`. */
  lemma ReleaseRange(reserved: set<string>, startSeatName: string, i: int)
    requires SplitSeatName(startSeatName).Some?
    ensures forall hi :: i < hi ==>
      reserved - {BlockSeat(startSeatName, i)} - BlockRange(startSeatName, i + 1, hi) == reserved - BlockRange(startSeatName, i, hi)
  {
    forall hi | i < hi
      ensures reserved - {BlockSeat(startSeatName, i)} - BlockRange(startSeatName, i + 1, hi) == reserved - BlockRange(startSeatName, i, hi)
    {
      BlockRangeCons(startSeatName, i, hi);
    }
  }

  /** The cancel loop from offset `i` answers `true` exactly when every remaining seat is reserved. */
  lemma {:induction false} CancelFromAnswer(reserved: set<string>, startSeatName: string, i: int, numSeats: int)
    requires SplitSeatName(startSeatName).Some?
    ensures CancelFrom(reserved, startSeatName, i, numSeats).0 <==>
      forall j :: i <= j < numSeats ==> BlockSeat(startSeatName, j) in reserved
    decreases numSeats - i
  {
    if i < numSeats && BlockSeat(startSeatName, i) in reserved {
      var rest := reserved - {BlockSeat(startSeatName, i)};
      CancelFromAnswer(rest, startSeatName, i + 1, numSeats);
      ReleaseKeepsLater(reserved, startSeatName, i);
      assert CancelFrom(reserved, startSeatName, i, numSeats) == CancelFrom(rest, startSeatName, i + 1, numSeats);
    }
  }

  /** When the loop succeeds it has released exactly the remaining seats. */
  lemma {:induction false} CancelFromReleased(reserved: set<string>, startSeatName: string, i: int, numSeats: int)
    requires SplitSeatName(startSeatName).Some?
    ensures CancelFrom(reserved, startSeatName, i, numSeats).0 ==>
      CancelFrom(reserved, startSeatName, i, numSeats).1 == reserved - BlockRange(startSeatName, i, numSeats)
    decreases numSeats - i
  {
    if i >= numSeats {
      assert BlockRange(startSeatName, i, numSeats) == {};
    } else if BlockSeat(startSeatName, i) in reserved {
      CancelFromReleased(reserved - {BlockSeat(startSeatName, i)}, startSeatName, i + 1, numSeats);
      ReleaseRange(reserved, startSeatName, i);
    }
  }

  /**
   * When the loop fails it has stopped at the first unreserved seat `k`, having released
   * exactly the seats before it.
   */
  lemma {:induction false} CancelFromStops(reserved: set<string>, startSeatName: string, i: int, numSeats: int)
    requires SplitSeatName(startSeatName).Some?
    ensures var (ok, after) := CancelFrom(reserved, startSeatName, i, numSeats);
      !ok ==> exists k :: i <= k < numSeats && BlockSeat(startSeatName, k) !in reserved &&
                (forall j :: i <= j < k ==> BlockSeat(startSeatName, j) in reserved) &&
                after == reserved - BlockRange(startSeatName, i, k)
    decreases numSeats - i
  {
    if i < numSeats {
      var x := BlockSeat(startSeatName, i);
      if x in reserved {
        var rest := reserved - {x};
        CancelFromStops(rest, startSeatName, i + 1, numSeats);
        ReleaseKeepsLater(reserved, startSeatName, i);
        ReleaseRange(reserved, startSeatName, i);
        var (ok, after) := CancelFrom(rest, startSeatName, i + 1, numSeats);
        if !ok {
          var k :| i + 1 <= k < numSeats && BlockSeat(startSeatName, k) !in rest &&
                   (forall j :: i + 1 <= j < k ==> BlockSeat(startSeatName, j) in rest) &&
                   after == rest - BlockRange(startSeatName, i + 1, k);
          assert CancelFrom(reserved, startSeatName, i, numSeats) == (ok, after);
          assert BlockSeat(startSeatName, k) !in reserved;
          assert forall j :: i <= j < k ==> BlockSeat(startSeatName, j) in reserved;
          assert after == reserved - BlockRange(startSeatName, i, k);
        }
      } else {
        assert BlockRange(startSeatName, i, i) == {};
      }
    }
  }

  /** The whole meaning of the cancel loop from offset `i`. */
  lemma CancelFromSpec(reserved: set<string>, startSeatName: string, i: int, numSeats: int)
    requires SplitSeatName(startSeatName).Some?
    ensures var (ok, after) := CancelFrom(reserved, startSeatName, i, numSeats);
      (ok <==> forall j :: i <= j < numSeats ==> BlockSeat(startSeatName, j) in reserved) &&
      (ok ==> after == reserved - BlockRange(startSeatName, i, numSeats)) &&
      (!ok ==> exists k :: i <= k < numSeats && BlockSeat(startSeatName, k) !in reserved &&
                 (forall j :: i <= j < k ==> BlockSeat(startSeatName, j) in reserved) &&
                 after == reserved - BlockRange(startSeatName, i, k))
  {
    CancelFromAnswer(reserved, startSeatName, i, numSeats);
    CancelFromReleased(reserved, startSeatName, i, numSeats);
    CancelFromStops(reserved, startSeatName, i, numSeats);
  }

  /**
   * `cancel_seats` answers `true` exactly when the block fits and every seat in it is
   * reserved, and then releases them all. A block that does not fit changes nothing. A block
   * with an unreserved seat answers `false`, but the seats before the first unreserved one
   * have already been released: the operation is not all-or-nothing.
   */
  lemma CancelOutcomeSpec(reserved: set<string>, startSeatName: string, numSeats: int, rowCount: int, seatsPerRow: int)
    ensures !BlockFits(startSeatName, numSeats, rowCount, seatsPerRow) ==>
      CancelOutcome(reserved, startSeatName, numSeats, rowCount, seatsPerRow) == (false, reserved)
    ensures BlockFits(startSeatName, numSeats, rowCount, seatsPerRow) ==>
      var (ok, after) := CancelOutcome(reserved, startSeatName, numSeats, rowCount, seatsPerRow);
      (ok <==> forall i :: 0 <= i < numSeats ==> BlockSeat(startSeatName, i) in reserved) &&
      (ok ==> after == reserved - BlockRange(startSeatName, 0, numSeats)) &&
      (!ok ==> exists k :: 0 <= k < numSeats && BlockSeat(startSeatName, k) !in reserved &&
                 (forall j :: 0 <= j < k ==> BlockSeat(startSeatName, j) in reserved) &&
                 after == reserved - BlockRange(startSeatName, 0, k))
  {
    if BlockFits(startSeatName, numSeats, rowCount, seatsPerRow) {
      CancelFromSpec(reserved, startSeatName, 0, numSeats);
    }
  }

  /**
   * `book_seats` with its default count of one acts as `book_seat` on the seat the start
   * name denotes, once the bounds test passes.
   */
  lemma BookOneSeat(reserved: set<string>, startSeatName: string, rowCount: int, seatsPerRow: int)
    requires BlockFits(startSeatName, 1, rowCount, seatsPerRow)
    ensures BookOutcome(reserved, startSeatName, 1, rowCount, seatsPerRow).0 <==> BlockSeat(startSeatName, 0) !in reserved
    ensures BookOutcome(reserved, startSeatName, 1, rowCount, seatsPerRow).1 == reserved + {BlockSeat(startSeatName, 0)}
  {
    assert BlockRange(startSeatName, 0, 0) == {};
    BlockRangeSnoc(startSeatName, 0, 0);
  }

  /** Booking a block and then cancelling the same block restores the reserved set. */
  lemma BookThenCancel(reserved: set<string>, startSeatName: string, numSeats: int, rowCount: int, seatsPerRow: int)
    requires BookOutcome(reserved, startSeatName, numSeats, rowCount, seatsPerRow).0
    ensures CancelOutcome(BookOutcome(reserved, startSeatName, numSeats, rowCount, seatsPerRow).1,
                          startSeatName, numSeats, rowCount, seatsPerRow) == (true, reserved)
  {
    var block := BlockRange(startSeatName, 0, numSeats);
    var booked := reserved + block;
    CancelFromSpec(booked, startSeatName, 0, numSeats);
    assert forall i :: 0 <= i < numSeats ==> BlockSeat(startSeatName, i) in block;
    assert booked - block == reserved;
  }

  lemma {:induction false} BlockRangeCard(startSeatName: string, n: nat)
    requires SplitSeatName(startSeatName).Some?
    ensures |BlockRange(startSeatName, 0, n)| == n
  {
    if n > 0 {
      BlockRangeCard(startSeatName, n - 1);
      var x := BlockSeat(startSeatName, n - 1);
      BlockRangeSnoc(startSeatName, 0, n - 1);
      assert BlockRange(startSeatName, 0, n) == BlockRange(startSeatName, 0, n - 1) + {x};
      if x in BlockRange(startSeatName, 0, n - 1) {
        var j :| 0 <= j < n - 1 && BlockSeat(startSeatName, j) == x;
        BlockSeatInjective(startSeatName, j, n - 1);
      }
    }
  }

  /** A successful booking reserves exactly `numSeats` new seats (none for a count of zero or less). */
  lemma BookAddsExactlyTheBlock(reserved: set<string>, startSeatName: string, numSeats: int, rowCount: int, seatsPerRow: int)
    requires BookOutcome(reserved, startSeatName, numSeats, rowCount, seatsPerRow).0
    ensures var after := BookOutcome(reserved, startSeatName, numSeats, rowCount, seatsPerRow).1;
      reserved <= after &&
      |after| == |reserved| + (if numSeats > 0 then numSeats else 0) &&
      forall i :: 0 <= i < numSeats ==> BlockSeat(startSeatName, i) in after
  {
    var n: nat := if numSeats > 0 then numSeats else 0;
    assert BlockRange(startSeatName, 0, numSeats) == BlockRange(startSeatName, 0, n);
    BlockRangeCard(startSeatName, n);
    assert reserved * BlockRange(startSeatName, 0, n) == {};
  }

  // ---------------------------------------------------------------------------------------
  // Records and object state

  /** What `to_dict` produces and `from_dict` consumes. */
  datatype AirplaneRecord = AirplaneRecord(name: string, rowCount: int, rowLayout: string, reservedSeats: seq<string>)

  /** The observable state of an airplane. */
  datatype PlaneState = PlaneState(name: string, rowCount: int, rowLayout: string, reserved: set<string>)

  /** The state `from_dict` gives a record: duplicates and order of the seat list do not survive. */
  function RecordState(data: AirplaneRecord): PlaneState {
    PlaneState(data.name, data.rowCount, data.rowLayout, Elems(data.reservedSeats))
  }

  /** Python's `str.isspace` for a single character. */
  predicate IsSpace(c: char) {
    var k := c as int;
    k == 0x20 || 0x09 <= k <= 0x0D || 0x1C <= k <= 0x1F || k == 0x85 || k == 0xA0 ||
    k == 0x1680 || 0x2000 <= k <= 0x200A || k == 0x2028 || k == 0x2029 ||
    k == 0x202F || k == 0x205F || k == 0x3000
  }

  /** How many whitespace characters `s` starts with. */
  function LeadingSpaces(s: string): (n: nat)
    ensures n <= |s| && forall i :: 0 <= i < n ==> IsSpace(s[i])
    ensures n < |s| ==> !IsSpace(s[n])
    decreases |s|
  {
    if s == [] || !IsSpace(s[0]) then 0 else 1 + LeadingSpaces(s[1..])
  }

  /** How many whitespace characters `s` ends with. */
  function TrailingSpaces(s: string): (n: nat)
    ensures n <= |s| && forall i :: |s| - n <= i < |s| ==> IsSpace(s[i])
    ensures n < |s| ==> !IsSpace(s[|s| - 1 - n])
    decreases |s|
  {
    if s == [] || !IsSpace(s[|s| - 1]) then 0 else 1 + TrailingSpaces(s[..|s| - 1])
  }

  /**
   * `s.strip()`: `s` without its leading and trailing whitespace. It is empty exactly when
   * every character is whitespace, and otherwise starts and ends with a non-space.
   */
  function Strip(s: string): (t: string)
    ensures t == [] <==> forall i :: 0 <= i < |s| ==> IsSpace(s[i])
    ensures t != [] ==> !IsSpace(t[0]) && !IsSpace(t[|t| - 1])
    ensures t <= s[LeadingSpaces(s)..]
    ensures forall i :: 0 <= i < LeadingSpaces(s) || LeadingSpaces(s) + |t| <= i < |s| ==> IsSpace(s[i])
  {
    var u := s[LeadingSpaces(s)..];
    u[..|u| - TrailingSpaces(u)]
  }

  /** `not s.strip()`: the string is empty after removing surrounding whitespace. */
  predicate IsBlank(s: string) {
    Strip(s) == []
  }

  /** Whitespace is Python's: tabs and the Unicode spaces count, the zero-width space does not. */
  lemma IsSpaceExamples()
    ensures IsSpace(' ') && IsSpace('\t') && IsSpace('\n') && IsSpace('\U{3000}') && IsSpace('\U{a0}')
    ensures !IsSpace('a') && !IsSpace('_') && !IsSpace('\U{200b}') && !IsSpace('\0')
    ensures IsBlank("") && IsBlank(" \t\n") && !IsBlank(" a ")
  {
    assert " a "[1] == 'a';
  }

  class Airplane {
    var name: string
    /** Python's `_airplane_name`: written by the name setter and read by nothing. */
    var airplaneName: Option<string>
    var rowCount: int
    var rowLayout: string
    var seatsPerRow: nat
    var reservedSeats: set<string>

    /** `seats_per_row` is computed once, from the layout. */
    ghost predicate Valid()
      reads this
    {
      seatsPerRow == CountSeats(rowLayout)
    }

    function State(): PlaneState
      reads this
    {
      PlaneState(name, rowCount, rowLayout, reservedSeats)
    }

    /**
     * `Airplane(name, row_count=20, row_layout='xx_xxxx_xx')`: neither the name nor the row
     * count is validated.
     */
    constructor (name: string, rowCount: int := DefaultRowCount, rowLayout: string := DefaultRowLayout)
      ensures Valid()
      ensures State() == PlaneState(name, rowCount, rowLayout, {})
      ensures airplaneName == None
    {
      this.name := name;
      this.airplaneName := None;
      this.rowCount := rowCount;
      this.rowLayout := rowLayout;
      this.seatsPerRow := CountSeats(rowLayout);
      this.reservedSeats := {};
    }

    /**
     * The `name` setter: refuses (`false`, for the ValueError) a blank name, and otherwise
     * stores the new name in `airplaneName`, so `name` itself never changes.
     */
    method SetName(newName: string) returns (ok: bool)
      requires Valid()
      modifies this`airplaneName
      ensures Valid()
      ensures ok <==> !IsBlank(newName)
      ensures airplaneName == if ok then Some(newName) else old(airplaneName)
    {
      ok := exists i :: 0 <= i < |newName| && !IsSpace(newName[i]);
      if ok {
        airplaneName := Some(newName);
      }
    }

    /** `check_consecutive_seats`: reads the state and changes nothing. */
    method CheckConsecutiveSeats(startSeatName: string, numSeats: int) returns (ok: bool)
      ensures ok == BlockFree(reservedSeats, startSeatName, numSeats, rowCount, seatsPerRow)
    {
      if |startSeatName| < 2 {
        return false;
      }
      var startRow := startSeatName[0] as int - 'A' as int;
      var parsed := ParseInt(startSeatName[1..]);
      if parsed.None? {
        return false;
      }
      var startPos := parsed.value;
      if startRow < 0 || startRow >= rowCount || startPos < 0 || startPos + numSeats > seatsPerRow {
        return false;
      }
      assert SplitSeatName(startSeatName) == Some(SeatRef(startRow, startPos));
      var n := if numSeats > 0 then numSeats else 0;
      for i := 0 to n
        invariant forall j :: 0 <= j < i ==> BlockSeat(startSeatName, j) !in reservedSeats
      {
        var seatName := SeatName(startRow, startPos + i);
        assert seatName == BlockSeat(startSeatName, i);
        if seatName in reservedSeats {
          return false;
        }
      }
      return true;
    }

    /** `book_seat`: adds one name, answering whether it was new. */
    method BookSeat(seatName: string) returns (ok: bool)
      requires Valid()
      modifies this`reservedSeats
      ensures Valid()
      ensures ok == (seatName !in old(reservedSeats))
      ensures reservedSeats == old(reservedSeats) + {seatName}
    {
      if seatName in reservedSeats {
        return false;
      }
      reservedSeats := reservedSeats + {seatName};
      return true;
    }

    /** `book_seats`: all of the block or nothing. */
    method BookSeats(startSeatName: string, numSeats: int := 1) returns (ok: bool)
      requires Valid()
      modifies this`reservedSeats
      ensures Valid()
      ensures (ok, reservedSeats) == BookOutcome(old(reservedSeats), startSeatName, numSeats, rowCount, seatsPerRow)
    {
      ok := CheckConsecutiveSeats(startSeatName, numSeats);
      if !ok {
        return;
      }
      var startRow := startSeatName[0] as int - 'A' as int;
      var startPos := ParseInt(startSeatName[1..]).value;
      assert SplitSeatName(startSeatName) == Some(SeatRef(startRow, startPos));
      var n := if numSeats > 0 then numSeats else 0;
      assert BlockRange(startSeatName, 0, 0) == {};
      for i := 0 to n
        invariant reservedSeats == old(reservedSeats) + BlockRange(startSeatName, 0, i)
      {
        var seatName := SeatName(startRow, startPos + i);
        assert seatName == BlockSeat(startSeatName, i);
        BlockRangeSnoc(startSeatName, 0, i);
        reservedSeats := reservedSeats + {seatName};
      }
      assert BlockRange(startSeatName, 0, n) == BlockRange(startSeatName, 0, numSeats);
    }

    /** `cancel_seat`: removes one name, answering whether it was there. */
    method CancelSeat(seatName: string) returns (ok: bool)
      requires Valid()
      modifies this`reservedSeats
      ensures Valid()
      ensures ok == (seatName in old(reservedSeats))
      ensures reservedSeats == old(reservedSeats) - {seatName}
    {
      if seatName in reservedSeats {
        reservedSeats := reservedSeats - {seatName};
        return true;
      }
      return false;
    }

    /** `cancel_seats`, as written: it releases seats until it meets one that is not reserved. */
    method CancelSeats(startSeatName: string, numSeats: int := 1) returns (ok: bool)
      requires Valid()
      modifies this`reservedSeats
      ensures Valid()
      ensures (ok, reservedSeats) == CancelOutcome(old(reservedSeats), startSeatName, numSeats, rowCount, seatsPerRow)
    {
      if |startSeatName| < 2 {
        return false;
      }
      var startRow := startSeatName[0] as int - 'A' as int;
      var parsed := ParseInt(startSeatName[1..]);
      if parsed.None? {
        return false;
      }
      var startPos := parsed.value;
      if startRow < 0 || startRow >= rowCount || startPos < 0 || startPos + numSeats > seatsPerRow {
        return false;
      }
      assert SplitSeatName(startSeatName) == Some(SeatRef(startRow, startPos));
      var n := if numSeats > 0 then numSeats else 0;
      for i := 0 to n
        invariant CancelFrom(reservedSeats, startSeatName, i, numSeats) ==
                  CancelFrom(old(reservedSeats), startSeatName, 0, numSeats)
      {
        var seatName := SeatName(startRow, startPos + i);
        assert seatName == BlockSeat(startSeatName, i);
        if seatName in reservedSeats {
          reservedSeats := reservedSeats - {seatName};
        } else {
          return false;
        }
      }
      return true;
    }

    /** `to_dict`: the seat list is the reserved set in some order, without repetitions. */
    method ToDict() returns (data: AirplaneRecord)
      ensures data.name == name && data.rowCount == rowCount && data.rowLayout == rowLayout
      ensures Elems(data.reservedSeats) == reservedSeats && Distinct(data.reservedSeats)
    {
      var seats: seq<string> := [];
      var rest := reservedSeats;
      while rest != {}
        invariant rest <= reservedSeats
        invariant Elems(seats) == reservedSeats - rest
        invariant Distinct(seats)
        decreases rest
      {
        var seat :| seat in rest;
        assert Elems(seats + [seat]) == Elems(seats) + {seat};
        seats := seats + [seat];
        rest := rest - {seat};
      }
      data := AirplaneRecord(name, rowCount, rowLayout, seats);
    }

    /** `from_dict`: a new airplane whose reserved set is exactly the record's seats. */
    static method FromDict(data: AirplaneRecord) returns (p: Airplane)
      ensures fresh(p) && p.Valid() && p.airplaneName == None
      ensures p.State() == RecordState(data)
    {
      p := new Airplane(data.name, data.rowCount, data.rowLayout);
      p.reservedSeats := Elems(data.reservedSeats);
    }
  }

  /** `from_dict(p.to_dict())` has the same name, row count, layout and reserved set as `p`. */
  method DictRoundTrip(p: Airplane) returns (q: Airplane)
    requires p.Valid()
    ensures q.Valid() && q.State() == p.State() && q.seatsPerRow == p.seatsPerRow
  {
    var data := p.ToDict();
    q := Airplane.FromDict(data);
  }

  // ---------------------------------------------------------------------------------------
  // The documented scenarios, on eight seats per row

  lemma CheckExamples()
    ensures BlockFree({}, "A1", 3, 2, 8)
    ensures BlockFree({}, "A0", 8, 2, 8)
    ensures !BlockFree({"A1"}, "A1", 3, 2, 8)
    ensures BlockFree({"A1"}, "A3", 5, 2, 8)
    ensures !BlockFree({"A1"}, "A9", 2, 2, 8)
    ensures !BlockFree({}, "A4", 5, 2, 8)
  {
    ParseIntExamples();
    assert ParseInt("1") == Some(1) && ParseInt("0") == Some(0) && ParseInt("3") == Some(3);
    assert ParseInt("9") == Some(9) && ParseInt("4") == Some(4);
    assert BlockSeat("A1", 0) == "A1";
    forall i | 0 <= i < 5 ensures BlockSeat("A3", i) != "A1" {
      assert "A1" == BlockSeat("A3", -2);
      if BlockSeat("A3", i) == "A1" { BlockSeatInjective("A3", i, -2); }
    }
  }

  /** `Airplane("TA101")` takes the default 20 rows of `"xx_xxxx_xx"`, eight seats each. */
  method DefaultsExample() returns (p: Airplane)
    ensures p.Valid() && p.seatsPerRow == 8
    ensures p.State() == PlaneState("TA101", 20, "xx_xxxx_xx", {})
  {
    p := new Airplane("TA101");
    DefaultLayoutHasEightSeats();
  }

  /** A count of zero or less passes the check without looking at any seat, even past the row. */
  lemma NonPositiveCountPasses(reserved: set<string>)
    ensures BlockFree(reserved, "A9", -2, 2, 8)
    ensures BookOutcome(reserved, "A9", -2, 2, 8) == (true, reserved)
  {
    assert ParseInt("9") == Some(9);
    assert BlockFree(reserved, "A9", -2, 2, 8);
    assert BlockRange("A9", 0, -2) == {};
    assert reserved + BlockRange("A9", 0, -2) == reserved;
  }

  /** With only A1 reserved, cancelling A1-A2 answers `false` yet releases A1. */
  lemma CancelIsNotAllOrNothing()
    ensures CancelOutcome({"A1"}, "A1", 2, 2, 8) == (false, {})
  {
    assert ParseInt("1") == Some(1);
    assert BlockFits("A1", 2, 2, 8);
    assert BlockSeat("A1", 0) == "A1";
    assert BlockSeat("A1", 1) != "A1" by {
      if BlockSeat("A1", 1) == "A1" { BlockSeatInjective("A1", 0, 1); }
    }
    assert {"A1"} - {"A1"} == {};
    assert CancelFrom({}, "A1", 1, 2) == (false, {});
  }
}
