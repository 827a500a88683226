/** The engine's political configuration: the time-zone offset in minutes
    and the daylight-saving rule (start month and Sunday, end month and
    Sunday, advance in minutes), with the setters that validate them. */
module Settings {
  import opened Numeric

  /** The configuration fields the calendar operations read. */
  datatype Config = Config(timezone: int, dstm1: byte, dstw1: byte, dstm2: byte, dstw2: byte, dstadv: byte)

  /** Largest accepted time-zone offset, in minutes either side of GMT. */
  const MaxZone: int := 720

  /** The configuration invariant the setters maintain: an offset of at most
      twelve hours, months 1..12 and Sunday ordinals 1..4. */
  predicate Valid(c: Config)
  {
    Absolute(c.timezone) <= MaxZone
    && 1 <= c.dstm1 <= 12 && 1 <= c.dstw1 <= 4
    && 1 <= c.dstm2 <= 12 && 1 <= c.dstw2 <= 4
  }

  /** `DstRules`: accepts the rule only when no month or ordinal is zero, no
      month exceeds 12 and no ordinal exceeds 4; on success all five values
      are stored, on failure nothing changes. */
  function DstRules(c: Config, sm: byte, sw: byte, em: byte, ew: byte, adv: byte): (r: (bool, Config))
    ensures r.0 <==> (1 <= sm <= 12 && 1 <= sw <= 4 && 1 <= em <= 12 && 1 <= ew <= 4)
    ensures r.0 ==> r.1 == c.(dstm1 := sm, dstw1 := sw, dstm2 := em, dstw2 := ew, dstadv := adv)
    ensures !r.0 ==> r.1 == c
    ensures Valid(c) ==> Valid(r.1)
  {
    if sm == 0 || sw == 0 || em == 0 || ew == 0 then (false, c)
    else if sm > 12 || sw > 4 || em > 12 || ew > 4 then (false, c)
    else (true, c.(dstm1 := sm, dstw1 := sw, dstm2 := em, dstw2 := ew, dstadv := adv))
  }

  /** `TimeZone`: accepts an offset of at most 720 minutes in magnitude and
      stores it; a larger one is refused and nothing changes. */
  function TimeZone(c: Config, z: int): (r: (bool, Config))
    ensures r.0 <==> -MaxZone <= z <= MaxZone
    ensures r.0 ==> r.1 == c.(timezone := z)
    ensures !r.0 ==> r.1 == c
    ensures Valid(c) ==> Valid(r.1)
  {
    if Absolute(z) > MaxZone then (false, c)
    else (true, c.(timezone := z))
  }

  /** The constructor's settings: five hours west of GMT and the United
      States rule (second Sunday of March to first Sunday of November, one
      hour). */
  function Initial(): (c: Config)
    ensures Valid(c)
    ensures c.timezone == -300
    ensures (c.dstm1, c.dstw1, c.dstm2, c.dstw2, c.dstadv) == (3, 2, 11, 1, 60)
  {
    var c0 := Config(-300, 0, 0, 0, 0, 0);
    DstRules(c0, 3, 2, 11, 1, 60).1
  }
}
