/**
 The audio layers: each click that turns sound on starts a "voice" (a chain
 of filters fed by the microphone), and at most MaxLayers voices are active
 at once. A new voice goes to the back of the list of active voices; when the
 list grows beyond MaxLayers, the oldest voice at the front is faded out.
 Turning sound off disconnects every active voice.
 */
module Voices {

  /** Most voices that play at the same time. */
  const MaxLayers: nat := 3

  /** A voice is an opaque handle on its filter chain. */
  type VoiceId = nat

  datatype Option<T> = None | Some(value: T)

  /** The newest MaxLayers entries of s (all of s when it is that short), oldest first. */
  function Newest(s: seq<VoiceId>): (r: seq<VoiceId>)
    ensures |r| <= MaxLayers && |r| <= |s|
    ensures |r| == MaxLayers || r == s
    ensures r == s[|s| - |r|..]
  {
    if |s| <= MaxLayers then s else s[|s| - MaxLayers..]
  }

  /** The active voices after v is pushed to the back and, if that overfills the list, the front is shifted off. */
  function Pushed(voices: seq<VoiceId>, v: VoiceId): (r: seq<VoiceId>)
    ensures |r| > 0 && r[|r| - 1] == v
    ensures |voices| <= MaxLayers ==> |r| <= MaxLayers
    ensures |voices| < MaxLayers ==> r == voices + [v]
    ensures |voices| >= MaxLayers ==> r == voices[1..] + [v]
  {
    var pushed := voices + [v];
    if |pushed| > MaxLayers then pushed[1..] else pushed
  }

  /** The voice faded out when v is pushed: the oldest, if the list overflows. */
  function Evicted(voices: seq<VoiceId>, v: VoiceId): (e: Option<VoiceId>)
    ensures e.Some? <==> |voices| >= MaxLayers
    ensures e.Some? ==> voices != [] && e.value == voices[0]
  {
    if |voices| + 1 > MaxLayers then Some(voices[0]) else None
  }

  /** The voices a push takes out of play, as a list of zero or one. */
  function Released(e: Option<VoiceId>): seq<VoiceId>
  {
    if e.Some? then [e.value] else []
  }

  /** Nothing is lost by a push: the evicted voice and the new list together are the old list plus v. */
  lemma PushConserves(voices: seq<VoiceId>, v: VoiceId)
    ensures Released(Evicted(voices, v)) + Pushed(voices, v) == voices + [v]
  {
  }

  /** From a list within the cap, one push keeps the newest MaxLayers of the old list plus v. */
  lemma PushedIsNewest(voices: seq<VoiceId>, v: VoiceId)
    requires |voices| <= MaxLayers
    ensures Pushed(voices, v) == Newest(voices + [v])
  {
  }

  /** The voices active after pushing each of vs in turn. */
  function PushAll(voices: seq<VoiceId>, vs: seq<VoiceId>): seq<VoiceId>
    decreases |vs|
  {
    if vs == [] then voices else PushAll(Pushed(voices, vs[0]), vs[1..])
  }

  lemma NewestAppend(a: seq<VoiceId>, b: seq<VoiceId>)
    ensures Newest(Newest(a) + b) == Newest(a + b)
  {
    var na := Newest(a);
    var dropped := a[..|a| - |na|];
    assert a == dropped + na;
    assert a + b == dropped + (na + b);
  }

  /**
   Whatever the order of creations, the active list is the newest
   MaxLayers voices ever pushed, in creation order.
   */
  lemma {:induction false} PushAllIsNewest(voices: seq<VoiceId>, vs: seq<VoiceId>)
    requires |voices| <= MaxLayers
    ensures PushAll(voices, vs) == Newest(voices + vs)
    decreases |vs|
  {
    if vs == [] {
      assert voices + vs == voices;
    } else {
      PushedIsNewest(voices, vs[0]);
      PushAllIsNewest(Pushed(voices, vs[0]), vs[1..]);
      NewestAppend(voices + [vs[0]], vs[1..]);
      assert voices + [vs[0]] + vs[1..] == voices + vs;
    }
  }

  /** No voice is evicted until the cap is reached: the list simply grows. */
  lemma {:induction false} PushAllBelowCap(voices: seq<VoiceId>, vs: seq<VoiceId>)
    requires |voices| + |vs| <= MaxLayers
    ensures PushAll(voices, vs) == voices + vs
    decreases |vs|
  {
    if vs != [] {
      PushAllBelowCap(voices + [vs[0]], vs[1..]);
      assert voices + [vs[0]] + vs[1..] == voices + vs;
    }
  }

  /** The session start: the first voice and the two delayed ones, from an empty list, give three layers. */
  lemma ThreeLayersFromEmpty(a: VoiceId, b: VoiceId, c: VoiceId)
    ensures PushAll([], [a, b, c]) == [a, b, c]
    ensures Evicted([], a) == None && Evicted([a], b) == None && Evicted([a, b], c) == None
  {
    PushAllBelowCap([], [a, b, c]);
  }

  /** The sound on/off state and the list of voices in play. */
  class AudioState {
    var audioActive: bool
    var activeVoices: seq<VoiceId>

    ghost predicate Valid()
      reads this
    {
      |activeVoices| <= MaxLayers
    }

    constructor ()
      ensures Valid()
      ensures !audioActive && activeVoices == []
    {
      audioActive := false;
      activeVoices := [];
    }

    /**
     Starts voice v: it joins the back of the list; if the list then holds
     more than MaxLayers voices, the oldest is shifted off and returned so
     that it can be faded out and disconnected.
     */
    method CreateVoiceCycle(v: VoiceId) returns (evicted: Option<VoiceId>)
      requires Valid()
      modifies this`activeVoices
      ensures Valid()
      ensures activeVoices == Pushed(old(activeVoices), v)
      ensures evicted == Evicted(old(activeVoices), v)
      ensures Released(evicted) + activeVoices == old(activeVoices) + [v]
    {
      activeVoices := activeVoices + [v];
      evicted := None;
      if |activeVoices| > MaxLayers {
        evicted := Some(activeVoices[0]);
        activeVoices := activeVoices[1..];
      }
      PushConserves(old(activeVoices), v);
    }

    /**
     The sound button. When sound is off, the microphone is requested: if
     access is refused (granted is false) the handler stops there and
     nothing changes; otherwise voice first is started and sound is on.
     When sound is on, every active voice is disconnected, the list is
     emptied and sound is off. Returns the voices taken out of play.
     */
    method Click(first: VoiceId, granted: bool) returns (released: seq<VoiceId>)
      requires Valid()
      modifies this
      ensures Valid()
      ensures !old(audioActive) && !granted ==>
                && !audioActive && activeVoices == old(activeVoices) && released == []
      ensures !old(audioActive) && granted ==>
                && audioActive
                && activeVoices == Pushed(old(activeVoices), first)
                && released + activeVoices == old(activeVoices) + [first]
      ensures old(audioActive) ==>
                && !audioActive && activeVoices == [] && released == old(activeVoices)
    {
      if !audioActive {
        if !granted {
          released := [];
          return;
        }
        var evicted := CreateVoiceCycle(first);
        released := Released(evicted);
        audioActive := true;
      } else {
        audioActive := false;
        released := activeVoices;
        activeVoices := [];
      }
    }
  }
}
