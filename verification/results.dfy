/** Turning the winning VM thread's saved capture slots into the public
    `Match` and `Captures` values. Group `g` records its start in slot `2g`
    and its end in slot `2g + 1`. The VM runner that produces the thread is
    not modelled: its result is a parameter. */
module MatchResults {
  import opened Wrappers

  /** The winning thread's state: saved slot positions and the index of
      each named group. */
  datatype Thread = Thread(saved: map<nat, nat>, namedCaptureIndex: map<string, nat>)

  /** The span of the whole match within `input`. */
  datatype Match<I> = Match(input: seq<I>, start: nat, end: nat)

  /** The span of one capture group. */
  datatype CaptureLocation = CaptureLocation(start: nat, end: nat)

  /** The spans of groups `0, 1, ...` and the name-to-index table. */
  datatype Captures<I> = Captures(input: seq<I>, captureLocations: seq<CaptureLocation>,
                                  namedCaptureIndex: map<string, nat>)

  const MissingGroupZero: string := "Unexpected missing 0th capture."
  const AsymmetricSlots: string := "Unexpected asymmetric saved position."

  /** Group `g` has recorded its start. */
  predicate HasOpen(saved: map<nat, nat>, g: nat) {
    2 * g in saved
  }

  /** Group `g` has recorded its end. */
  predicate HasClose(saved: map<nat, nat>, g: nat) {
    2 * g + 1 in saved
  }

  /** The span of group 0, if a thread won. A winner lacking slot 0 or,
      having it, lacking slot 1 is a fatal error. */
  function Find<I>(winner: Option<Thread>, input: seq<I>): (r: Outcome<Option<Match<I>>>)
    ensures r == Done(None) <==> winner.None?
    ensures r.Done? && r.value.Some? <==> winner.Some? && HasOpen(winner.value.saved, 0) && HasClose(winner.value.saved, 0)
    ensures r.Done? && r.value.Some? ==>
      r.value.value.input == input
      && r.value.value.start == winner.value.saved[0]
      && r.value.value.end == winner.value.saved[1]
    ensures r.Panic? ==> winner.Some? && r.message == (if HasOpen(winner.value.saved, 0) then AsymmetricSlots else MissingGroupZero)
  {
    match winner
    case None => Done(None)
    case Some(t) =>
      if 0 !in t.saved then Panic(MissingGroupZero)
      else if 1 !in t.saved then Panic(AsymmetricSlots)
      else Done(Some(Match(input, t.saved[0], t.saved[1])))
  }

  /** The keys of `saved` from slot `2 * g` on. */
  function SlotsFrom(saved: map<nat, nat>, g: nat): set<nat> {
    set k | k in saved.Keys && k >= 2 * g
  }

  lemma SlotsFromShrink(saved: map<nat, nat>, g: nat)
    requires HasOpen(saved, g)
    ensures |SlotsFrom(saved, g + 1)| < |SlotsFrom(saved, g)|
  {
    var big, small := SlotsFrom(saved, g), SlotsFrom(saved, g + 1);
    assert small <= big;
    assert 2 * g in big - small;
    assert big == small + (big - small);
  }

  /** `loc` is the complete span of group `g`. */
  predicate SpanOf(saved: map<nat, nat>, g: nat, loc: CaptureLocation) {
    HasOpen(saved, g) && HasClose(saved, g) && loc == CaptureLocation(saved[2 * g], saved[2 * g + 1])
  }

  /** `locs[j]` is the complete span of group `g + j`, for every `j`. */
  predicate SpansFrom(saved: map<nat, nat>, g: nat, locs: seq<CaptureLocation>) {
    forall j :: 0 <= j < |locs| ==> SpanOf(saved, g + j, locs[j])
  }

  lemma SpansFromCons(saved: map<nat, nat>, g: nat, rest: seq<CaptureLocation>)
    requires HasOpen(saved, g) && HasClose(saved, g)
    requires SpansFrom(saved, g + 1, rest)
    ensures SpansFrom(saved, g, [CaptureLocation(saved[2 * g], saved[2 * g + 1])] + rest)
  {
    var locs := [CaptureLocation(saved[2 * g], saved[2 * g + 1])] + rest;
    forall j | 0 <= j < |locs|
      ensures SpanOf(saved, g + j, locs[j])
    {
      if j > 0 {
        var k := j - 1;
        assert locs[j] == rest[k] && g + j == (g + 1) + k;
        assert SpanOf(saved, (g + 1) + k, rest[k]);
      }
    }
  }

  /** The spans of groups `g, g + 1, ...` up to, excluding, the first group
      with no start slot. A group with a start but no end is a fatal error. */
  function CaptureLocationsFrom(saved: map<nat, nat>, g: nat): (r: Outcome<seq<CaptureLocation>>)
    ensures r.Done? ==> SpansFrom(saved, g, r.value) && !HasOpen(saved, g + |r.value|)
    ensures r.Panic? ==>
      && r.message == AsymmetricSlots
      && exists j :: g <= j && !HasClose(saved, j) && forall l :: g <= l <= j ==> HasOpen(saved, l)
    decreases |SlotsFrom(saved, g)|
  {
    if !HasOpen(saved, g) then Done([])
    else if !HasClose(saved, g) then Panic(AsymmetricSlots)
    else
      SlotsFromShrink(saved, g);
      var tail := CaptureLocationsFrom(saved, g + 1);
      if tail.Panic? then Panic(tail.message)
      else
        SpansFromCons(saved, g, tail.value);
        Done([CaptureLocation(saved[2 * g], saved[2 * g + 1])] + tail.value)
  }

  /** The spans of all groups `0 .. k-1`, where `k` is the first group with
      no start slot, plus the named-group table, if a thread won. */
  function CapturesOf<I>(winner: Option<Thread>, input: seq<I>): (r: Outcome<Option<Captures<I>>>)
    ensures r == Done(None) <==> winner.None?
    ensures r.Done? && r.value.Some? ==>
      var c := r.value.value;
      && c.input == input
      && c.namedCaptureIndex == winner.value.namedCaptureIndex
      && SpansFrom(winner.value.saved, 0, c.captureLocations)
      && !HasOpen(winner.value.saved, |c.captureLocations|)
    ensures r.Panic? ==> winner.Some? && r.message == AsymmetricSlots
  {
    match winner
    case None => Done(None)
    case Some(t) =>
      var found := CaptureLocationsFrom(t.saved, 0);
      if found.Panic? then Panic(found.message)
      else
        var locs := found.value;
        Done(Some(Captures(input, locs, t.namedCaptureIndex)))
  }

  /** `captures` fails exactly when some group, reached before the first
      group with no start slot, has a start but no end. */
  lemma CapturesPanicsIffAsymmetric<I>(t: Thread, input: seq<I>)
    ensures CapturesOf(Some(t), input).Panic? <==>
      exists j: nat :: !HasClose(t.saved, j) && forall l: nat :: l <= j ==> HasOpen(t.saved, l)
  {
    var r := CapturesOf(Some(t), input);
    if r.Done? {
      var locs := r.value.value.captureLocations;
      forall j: nat | forall l: nat :: l <= j ==> HasOpen(t.saved, l)
        ensures HasClose(t.saved, j)
      {
        if j < |locs| {
          assert locs[j] == locs[j] && HasClose(t.saved, 0 + j);
        } else {
          assert false;
        }
      }
    }
  }

  /** `find` and `captures` agree on the same winner: both report no match
      together; when both succeed, group 0 of `captures` is the span `find`
      reports; and a group 0 with a start but no end makes both fail. They
      disagree only when slot 0 is absent: `find` fails, while `captures`
      reports an empty list of groups. */
  lemma FindAgreesWithCaptures<I>(winner: Option<Thread>, input: seq<I>)
    ensures Find(winner, input) == Done(None) <==> CapturesOf(winner, input) == Done(None)
    ensures Find(winner, input).Done? && Find(winner, input).value.Some?
            && CapturesOf(winner, input).Done? ==>
      var m := Find(winner, input).value.value;
      var c := CapturesOf(winner, input).value.value;
      |c.captureLocations| >= 1 && c.captureLocations[0] == CaptureLocation(m.start, m.end)
    ensures Find(winner, input) == Panic(AsymmetricSlots) ==> CapturesOf(winner, input).Panic?
    ensures Find(winner, input) == Panic(MissingGroupZero) ==>
      CapturesOf(winner, input) == Done(Some(Captures(input, [], winner.value.namedCaptureIndex)))
  {
    if winner.Some? {
      var t := winner.value;
      var c := CapturesOf(winner, input);
      if c.Done? && HasOpen(t.saved, 0) {
        var locs := c.value.value.captureLocations;
        assert |locs| >= 1;
        assert HasOpen(t.saved, 0 + 0) && locs[0] == locs[0];
      }
    }
  }
}
