/** Per-tick sampling of one channel: the light level is compared with the
    channel's threshold and every idle-to-light (High to Low) change of the
    derived signal counts as one blink. */
module EdgeCounter {
  import opened Types

  /** The signal a light level produces: light below the threshold pulls the
      sensor Low, anything else reads High. */
  function Sense(level: int, threshold: Byte): Level
  {
    if level < threshold then Low else High
  }

  /** One sample of one channel. */
  function Sample(c: Channel, level: int): (c': Channel)
    ensures c'.signal == Low <==> level < c.threshold
    ensures c'.blinks == c.blinks + (if c.signal == High && c'.signal == Low then 1 else 0)
    ensures c'.threshold == c.threshold && c'.last == c.last
  {
    var s := Sense(level, c.threshold);
    if s != c.signal then
      assert s == Low ==> c.signal.High?;
      c.(signal := s, blinks := if s == Low then c.blinks + 1 else c.blinks)
    else
      c
  }

  /** A channel after sampling every level of `levels` in order. */
  function SampleAll(c: Channel, levels: seq<int>): Channel
    decreases |levels|
  {
    if |levels| == 0 then c else SampleAll(Sample(c, levels[0]), levels[1..])
  }

  /** The signals a sequence of light levels produces against one threshold. */
  function Senses(levels: seq<int>, threshold: Byte): (signals: seq<Level>)
    ensures |signals| == |levels|
    ensures forall t :: 0 <= t < |levels| ==> signals[t] == Sense(levels[t], threshold)
  {
    seq(|levels|, t requires 0 <= t < |levels| => Sense(levels[t], threshold))
  }

  /** Number of High-to-Low transitions in `signals`, the signal before the
      first one being `prev`. */
  function FallingEdges(prev: Level, signals: seq<Level>): nat
    decreases |signals|
  {
    if |signals| == 0 then 0
    else (if prev == High && signals[0] == Low then 1 else 0) + FallingEdges(signals[0], signals[1..])
  }

  /** Over any run of samples, the blink counter grows by exactly the number of
      High-to-Low transitions of the sensed signal, the signal ends at the last
      sample's value, and the threshold and reported status are untouched. */
  lemma {:induction false} SampleAllCountsFallingEdges(c: Channel, levels: seq<int>)
    ensures SampleAll(c, levels).blinks == c.blinks + FallingEdges(c.signal, Senses(levels, c.threshold))
    ensures SampleAll(c, levels).signal == if |levels| == 0 then c.signal else Sense(levels[|levels| - 1], c.threshold)
    ensures SampleAll(c, levels).threshold == c.threshold && SampleAll(c, levels).last == c.last
    decreases |levels|
  {
    if |levels| > 0 {
      var c1 := Sample(c, levels[0]);
      SampleAllCountsFallingEdges(c1, levels[1..]);
      assert Senses(levels, c.threshold)[1..] == Senses(levels[1..], c.threshold);
      if |levels| > 1 {
        assert levels[1..][|levels[1..]| - 1] == levels[|levels| - 1];
      }
    }
  }

  /** A falling edge needs a Low sample preceded by a High one, so at most one
      edge is counted per two samples (plus one if the run starts High). */
  lemma {:induction false} FallingEdgesBound(prev: Level, signals: seq<Level>)
    ensures 2 * FallingEdges(prev, signals) <= |signals| + (if prev == High then 1 else 0)
    decreases |signals|
  {
    if |signals| > 0 {
      FallingEdgesBound(signals[0], signals[1..]);
    }
  }
}
