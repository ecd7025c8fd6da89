/** The unit constants of Common/Constants.cs, plus the two .NET constants they are
    derived from (TimeSpan.TicksPerSecond and the largest DateTime tick count). */
module Constants {
  import opened BitArithmetic

  const MilliSecPerSec: nat := 1000
  const USecPerSec: nat := MilliSecPerSec * 1000
  const SecPerMin: nat := 60
  const MinPerHour: nat := 60
  const HourPerDay: nat := 24
  const MilliSecPerDay: nat := HourPerDay * MinPerHour * SecPerMin * MilliSecPerSec

  /** TimeSpan.TicksPerSecond: a tick is 100 ns. */
  const TicksPerSecond: nat := 10_000_000
  const TicksPerMinute: nat := 60 * TicksPerSecond
  const TicksPerHour: nat := 60 * TicksPerMinute
  const TicksPerDay: nat := 24 * TicksPerHour
  const TicksPerUSec: nat := TicksPerSecond / USecPerSec

  const BytesPerMegaByte: nat := 1024 * 1024
  const BytesPerGigaByte: nat := BytesPerMegaByte * 1024

  /** DateTime.MaxValue.Ticks. */
  const MaxDateTimeTicks: nat := 3_155_378_975_999_999_999

  lemma UnitConstants()
    ensures MilliSecPerDay == 86_400_000
    ensures USecPerSec == 1_000_000
    ensures TicksPerUSec == 10
  {
  }

  lemma ByteUnitsArePowersOfTwo()
    ensures BytesPerMegaByte == Pow2(20)
    ensures BytesPerGigaByte == Pow2(30)
  {
    assert Pow2(10) == 1024 by {
      assert Pow2(5) == 32;
    }
    Pow2Add(10, 10);
    Pow2Add(20, 10);
  }
}
