/** The six-byte time buffer every operation reads and writes, and its slot
    layout (second, minute, hour, day, month, year since 2000). */
module TimeBuffer {
  import opened Numeric

  /** One field per slot of the buffer; every field is an `uint8_t`. */
  datatype Time = Time(second: byte, minute: byte, hour: byte, day: byte, month: byte, year: byte)

  /** Slot indices of the buffer. */
  const SecondSlot: nat := 0
  const MinuteSlot: nat := 1
  const HourSlot: nat := 2
  const DaySlot: nat := 3
  const MonthSlot: nat := 4
  const YearSlot: nat := 5

  /** Number of slots in the buffer. */
  const Slots: nat := 6

  /** The calendar year a buffer's year field is counted from. */
  const Epoch: int := 2000

  /** The buffer a `Time` occupies: each field sits at its slot. */
  function ToBuffer(t: Time): (b: seq<byte>)
    ensures |b| == Slots
    ensures b[SecondSlot] == t.second && b[MinuteSlot] == t.minute && b[HourSlot] == t.hour
    ensures b[DaySlot] == t.day && b[MonthSlot] == t.month && b[YearSlot] == t.year
  {
    [t.second, t.minute, t.hour, t.day, t.month, t.year]
  }

  /** Reading a six-slot buffer back into its fields. */
  function FromBuffer(b: seq<byte>): (t: Time)
    requires |b| == Slots
    ensures ToBuffer(t) == b
  {
    Time(b[SecondSlot], b[MinuteSlot], b[HourSlot], b[DaySlot], b[MonthSlot], b[YearSlot])
  }

  /** Writing a time into the buffer and reading it back gives the same time. */
  lemma BufferRoundTrip(t: Time)
    ensures FromBuffer(ToBuffer(t)) == t
  {
  }
}
