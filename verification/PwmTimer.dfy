/** The timer resolution a PWM channel starts with (niobeu4/liteos_m/hals/iot_hardware/wifiiot_lite/hal_iot_pwm.c). */
module PwmTimer {
  import opened Machine

  const CLK_40M: nat := 40000000
  const DUTY_MAX: nat := 100
  const DUTY_RES_MIN: nat := 128

  function Pow2(n: nat): (p: nat)
    ensures p > 0
  {
    if n == 0 then 1 else 2 * Pow2(n - 1)
  }

  /** The number of binary digits of `x`. */
  function BitLength(x: nat): nat {
    if x == 0 then 0 else 1 + BitLength(x / 2)
  }

  lemma {:induction false} Pow2Monotone(a: nat, b: nat)
    requires a < b
    ensures 2 * Pow2(a) <= Pow2(b)
  {
    if a + 1 < b {
      Pow2Monotone(a, b - 1);
    }
  }

  /** A positive number of bit length n lies in [2^(n-1), 2^n). */
  lemma {:induction false} BitLengthBounds(x: nat)
    requires x > 0
    ensures BitLength(x) > 0 && Pow2(BitLength(x) - 1) <= x < Pow2(BitLength(x))
  {
    if x > 1 {
      BitLengthBounds(x / 2);
    }
  }

  /** x >= 2^n exactly when x has more than n digits. */
  lemma AtLeastPow2(x: nat, n: nat)
    ensures Pow2(n) <= x <==> n < BitLength(x)
  {
    if x > 0 {
      BitLengthBounds(x);
      var b := BitLength(x);
      if n < b - 1 {
        Pow2Monotone(n, b - 1);
      } else if b < n {
        Pow2Monotone(b, n);
      }
    }
  }

  lemma DivisionBound(clock: nat, freq: nat, q: nat)
    requires freq > 0
    ensures q <= clock / freq <==> freq * q <= clock
  {
    var d := clock / freq;
    assert freq * d <= clock < freq * (d + 1);
    if q <= d {
      MulMonotone(freq, q, d);
    } else {
      MulMonotone(freq, d + 1, q);
    }
  }

  lemma {:induction false} MulMonotone(f: nat, a: nat, b: nat)
    requires a <= b
    ensures f * a <= f * b
  {
    if a < b {
      MulMonotone(f, a, b - 1);
      assert f * b == f * (b - 1) + f;
    }
  }

  /** The frequency gate, for a hardware with timers of up to `timerBits` bits. */
  predicate Accepted(freq: u32, timerBits: nat) {
    freq != 0 && DUTY_RES_MIN <= CLK_40M / freq <= Pow2(timerBits)
  }

  /** `r` is the largest number of bits with which `freq` periods of 2^r ticks fit into one second of the clock. */
  ghost predicate Greatest(freq: nat, r: nat) {
    && freq * Pow2(r) <= CLK_40M
    && forall q: nat :: r < q ==> freq * Pow2(q) > CLK_40M
  }

  /** What the loop over the halved quotient computes is that number plus one, and the gate bounds it. */
  lemma ResolutionIsGreatest(freq: u32, timerBits: nat)
    requires Accepted(freq, timerBits)
    ensures var n := BitLength(CLK_40M / freq);
      && n > 0 && Greatest(freq, n - 1) && 7 <= n - 1 <= timerBits
      && (n - 1 == timerBits <==> CLK_40M / freq == Pow2(timerBits))
  {
    var x := CLK_40M / freq;
    var n := BitLength(x);
    BitLengthBounds(x);
    assert freq * Pow2(n - 1) <= CLK_40M by {
      DivisionBound(CLK_40M, freq, Pow2(n - 1));
    }
    forall q: nat | n - 1 < q
      ensures freq * Pow2(q) > CLK_40M
    {
      AtLeastPow2(x, q);
      DivisionBound(CLK_40M, freq, Pow2(q));
    }
    Pow2Of7();
    AtLeastPow2(x, 7);
    AtLeastPow2(x, timerBits + 1);
    AtLeastPow2(x, timerBits);
  }

  lemma Pow2Of7()
    ensures Pow2(7) == DUTY_RES_MIN
  {
    assert Pow2(4) == 16;
  }

  /** No other number is the greatest one. */
  lemma GreatestIsUnique(freq: nat, r: nat, q: nat)
    requires Greatest(freq, r) && Greatest(freq, q)
    ensures r == q
  {
  }

  datatype Channel = Channel(initialized: bool)

  class Pwm {
    const channels: array<Channel>
    const timerBits: nat

    constructor (count: nat, timerBits: nat)
      ensures channels.Length == count && this.timerBits == timerBits && fresh(channels)
      ensures forall i :: 0 <= i < count ==> channels[i] == Channel(false)
    {
      channels := new Channel[count](_ => Channel(false));
      this.timerBits := timerBits;
    }

    method IoTPwmInit(port: u32) returns (r: IotResult)
      modifies channels
      ensures r == IOT_SUCCESS <==> port < channels.Length && !old(channels[..])[port].initialized
      ensures channels[..] == if r == IOT_SUCCESS then old(channels[..])[port := Channel(true)] else old(channels[..])
    {
      if port >= channels.Length {
        return IOT_FAILURE;
      }
      if channels[port].initialized {
        return IOT_FAILURE;
      }
      channels[port] := Channel(true);
      return IOT_SUCCESS;
    }

    method IoTPwmDeinit(port: u32) returns (r: IotResult)
      modifies channels
      ensures r == IOT_SUCCESS <==> port < channels.Length && old(channels[..])[port].initialized
      ensures channels[..] == if r == IOT_SUCCESS then old(channels[..])[port := Channel(false)] else old(channels[..])
    {
      if port >= channels.Length {
        return IOT_FAILURE;
      }
      if !channels[port].initialized {
        return IOT_FAILURE;
      }
      channels[port] := Channel(false);
      return IOT_SUCCESS;
    }

    /**
     `driverOk` tells whether all the LEDC driver calls succeed. `resolution` is the timer resolution configured,
     None when the call stops before configuring the timer.
     */
    method IoTPwmStart(port: u32, duty: nat, freq: u32, driverOk: bool) returns (r: IotResult, resolution: Option<nat>)
      ensures resolution.Some? <==>
        port < channels.Length && channels[port].initialized && 0 < duty < DUTY_MAX && Accepted(freq, timerBits)
      ensures resolution.Some? ==> Greatest(freq, resolution.value) && 7 <= resolution.value <= timerBits
      ensures r == IOT_SUCCESS <==> resolution.Some? && driverOk
    {
      if port >= channels.Length {
        return IOT_FAILURE, None;
      }
      if !channels[port].initialized {
        return IOT_FAILURE, None;
      }
      if freq == 0 || duty >= DUTY_MAX || duty == 0 {
        return IOT_FAILURE, None;
      }
      var dutyResolution: nat := CLK_40M / freq;
      if dutyResolution < DUTY_RES_MIN || dutyResolution > Pow2(timerBits) {
        return IOT_FAILURE, None;
      }
      var timerBit: int := 0;
      while dutyResolution != 0
        invariant timerBit + BitLength(dutyResolution) == BitLength(CLK_40M / freq)
      {
        dutyResolution := dutyResolution / 2;
        timerBit := timerBit + 1;
      }
      ResolutionIsGreatest(freq, timerBits);
      return if driverOk then IOT_SUCCESS else IOT_FAILURE, Some(timerBit - 1);
    }
  }
}
