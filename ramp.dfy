/**
 The fade-in of a voice. Every 50 ms the voice's gain is ramped towards
 0.5 * t and its feedback filter's cutoff set to 1200 - 800 * t, where t is
 the elapsed fraction of a 20-second fade, capped at 1. Once t reaches 1
 the interval stops itself.
 */
module Ramp {

  /** Length of the fade-in, in seconds. */
  const Duration: real := 20.0
  /** Gain the voice fades in to. */
  const PeakGain: real := 0.5
  /** Feedback-filter cutoff at the start and at the end of the fade, in Hz. */
  const StartCutoff: real := 1200.0
  const EndCutoff: real := 400.0
  /** Values a voice's gain node and feedback filter are created with. */
  const InitialGain: real := 0.0
  const InitialFeedbackCutoff: real := 1200.0

  /** Fraction of the fade done after elapsed seconds: elapsed / Duration, capped at 1. */
  function Fraction(elapsed: real): (t: real)
    ensures t <= 1.0
    ensures 0.0 <= elapsed ==> 0.0 <= t
    ensures t == 1.0 <==> elapsed >= Duration
    ensures elapsed < Duration ==> t * Duration == elapsed
  {
    var linear := elapsed / Duration;
    if linear < 1.0 then linear else 1.0
  }

  /** What one tick of the interval sets, and whether it then stops. */
  datatype Targets = Targets(gain: real, feedbackCutoff: real, done: bool)

  function Tick(elapsed: real): (r: Targets)
    ensures 0.0 <= elapsed ==> 0.0 <= r.gain <= PeakGain
    ensures 0.0 <= elapsed ==> EndCutoff <= r.feedbackCutoff <= StartCutoff
    ensures r.done <==> elapsed >= Duration
    ensures r.done <==> r.gain == PeakGain
  {
    var t := Fraction(elapsed);
    Targets(0.5 * t, 1200.0 - t * 800.0, t >= 1.0)
  }

  /** The fade is monotone: gain never falls and the cutoff never rises as time passes. */
  lemma TickMonotone(a: real, b: real)
    requires a <= b
    ensures Tick(a).gain <= Tick(b).gain
    ensures Tick(b).feedbackCutoff <= Tick(a).feedbackCutoff
  {
  }

  /** The fade starts from the values the nodes were created with. */
  lemma TickStartsAtInitialValues()
    ensures Tick(0.0) == Targets(InitialGain, InitialFeedbackCutoff, false)
  {
  }

  /** From the end of the fade on, every tick sets the final values and stops. */
  lemma TickSettles(elapsed: real)
    requires elapsed >= Duration
    ensures Tick(elapsed) == Targets(PeakGain, EndCutoff, true)
  {
  }

  /** Gain and cutoff move together: the cutoff falls 1600 Hz per unit of gain. */
  lemma TickCoupled(elapsed: real)
    ensures Tick(elapsed).feedbackCutoff == StartCutoff - 1600.0 * Tick(elapsed).gain
  {
  }

  /**
   The interval of one voice, run against the successive clock readings
   it sees (seconds since the voice started). Each tick issues its
   targets; the tick whose targets are final clears the interval, so no
   reading after it is used.
   */
  method RunInterval(readings: seq<real>) returns (issued: seq<Targets>)
    ensures |issued| <= |readings|
    ensures forall k :: 0 <= k < |issued| ==> issued[k] == Tick(readings[k])
    ensures forall k :: 0 <= k < |issued| - 1 ==> readings[k] < Duration
    ensures |issued| < |readings| ==> issued != [] && issued[|issued| - 1].done
  {
    issued := [];
    var k := 0;
    while k < |readings|
      invariant k == |issued| <= |readings|
      invariant forall j :: 0 <= j < k ==> issued[j] == Tick(readings[j])
      invariant forall j :: 0 <= j < k ==> readings[j] < Duration
    {
      var targets := Tick(readings[k]);
      issued := issued + [targets];
      if targets.done {
        return;
      }
      k := k + 1;
    }
  }
}
