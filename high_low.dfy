/** The interval gate `high_low` (fc/gate.py:79-128): keep an event when every
    selected channel value lies strictly between `low` and `high`. */
module HighLowGate {
  import opened GateCommon
  import opened Points

  /** low < v < high, a missing bound standing for -inf or +inf. */
  predicate Inside(v: real, low: Option<real>, high: Option<real>)
  {
    (low.None? || low.value < v) && (high.None? || v < high.value)
  }

  /** np.all over one row's selected values. */
  function AllInside(vals: seq<real>, low: Option<real>, high: Option<real>): (b: bool)
    ensures b <==> forall j :: 0 <= j < |vals| ==> Inside(vals[j], low, high)
  {
    if vals == [] then true
    else Inside(vals[0], low, high) && AllInside(vals[1..], low, high)
  }

  /** The channels to gate on: every column when `channels` is None. */
  function GateChannels(channels: Option<seq<nat>>, width: nat): seq<nat>
  {
    if channels.None? then Range(width) else channels.value
  }

  /** data[:, channels] raises IndexError unless every channel is a column. */
  predicate ChannelsInRange(channels: Option<seq<nat>>, width: nat)
  {
    channels.None? || forall j :: 0 <= j < |channels.value| ==> channels.value[j] < width
  }

  /** high_low's mask: np.all((data_ch < high) & (data_ch > low), axis=1). */
  function HighLowMask(data: seq<seq<real>>, width: nat, channels: Option<seq<nat>>,
                       high: Option<real>, low: Option<real>): (r: Result<seq<bool>>)
    requires IsMatrix(data, width)
    ensures r.Err? <==> !ChannelsInRange(channels, width)
    ensures r.Err? ==> r.error == ChannelOutOfRange
    ensures r.Ok? ==> |r.value| == |data|
    ensures r.Ok? ==> forall i :: 0 <= i < |data| ==>
      (r.value[i] <==> forall c :: c in GateChannels(channels, width) ==> Inside(data[i][c], low, high))
  {
    if !ChannelsInRange(channels, width) then Err(ChannelOutOfRange)
    else
      var cols := GateChannels(channels, width);
      var mask := seq(|data|, i requires 0 <= i < |data| => AllInside(Gather(data[i], cols), low, high));
      assert forall i :: 0 <= i < |data| ==>
        (mask[i] <==> forall c :: c in cols ==> Inside(data[i][c], low, high)) by {
        forall i | 0 <= i < |data|
          ensures mask[i] <==> forall c :: c in cols ==> Inside(data[i][c], low, high)
        {
          var vals := Gather(data[i], cols);
          if !mask[i] {
            var j :| 0 <= j < |vals| && !Inside(vals[j], low, high);
            assert cols[j] in cols;
          } else {
            forall c | c in cols ensures Inside(data[i][c], low, high) {
              var j :| 0 <= j < |cols| && cols[j] == c;
              assert vals[j] == data[i][c];
            }
          }
        }
      }
      Ok(mask)
  }

  /** high_low with full output: the mask and data[mask]. */
  function HighLow(data: seq<seq<real>>, width: nat, channels: Option<seq<nat>>,
                   high: Option<real>, low: Option<real>): (r: Result<GateOutput<seq<real>>>)
    requires IsMatrix(data, width)
    ensures r.Err? <==> !ChannelsInRange(channels, width)
    ensures r.Ok? ==> HighLowMask(data, width, channels, high, low) == Ok(r.value.mask)
    ensures r.Ok? ==> |r.value.mask| == |data| && r.value.gated == Select(data, r.value.mask)
  {
    match HighLowMask(data, width, channels, high, low)
    case Err(e) => Err(e)
    case Ok(mask) => Ok(GateOutput(Select(data, mask), mask))
  }

  /** The gated rows are exactly the rows with every selected value strictly
      inside the bounds, in their original order: data[mask] is data at the
      increasing positions np.nonzero(mask), and those positions are the rows
      inside the bounds. */
  lemma {:induction false} HighLowGatedRows(data: seq<seq<real>>, width: nat, channels: Option<seq<nat>>,
                         high: Option<real>, low: Option<real>)
    requires IsMatrix(data, width) && ChannelsInRange(channels, width)
    ensures HighLow(data, width, channels, high, low).Ok?
    ensures var out := HighLow(data, width, channels, high, low).value;
      out.gated == Gather(data, TrueIndices(out.mask))
    ensures var out := HighLow(data, width, channels, high, low).value;
      forall k :: 0 <= k < |data| ==>
        (k in TrueIndices(out.mask) <==> forall c :: c in GateChannels(channels, width) ==> Inside(data[k][c], low, high))
  {
    var mask := HighLowMask(data, width, channels, high, low).value;
    SelectIsGather(data, mask);
  }

  /** A value equal to either bound is gated out: the comparisons are strict. */
  lemma {:induction false} BoundsExcluded(data: seq<seq<real>>, width: nat, channels: Option<seq<nat>>,
                       high: Option<real>, low: Option<real>, i: nat, c: nat)
    requires IsMatrix(data, width) && ChannelsInRange(channels, width)
    requires i < |data| && c in GateChannels(channels, width)
    requires (low.Some? && data[i][c] == low.value) || (high.Some? && data[i][c] == high.value)
    ensures !HighLowMask(data, width, channels, high, low).value[i]
  {
  }

  /** Loosening either bound never gates out an event that was kept. */
  lemma {:induction false} WiderBoundsKeepMore(data: seq<seq<real>>, width: nat, channels: Option<seq<nat>>,
                            high: Option<real>, low: Option<real>,
                            high': Option<real>, low': Option<real>, i: nat)
    requires IsMatrix(data, width) && ChannelsInRange(channels, width) && i < |data|
    requires low'.None? || (low.Some? && low'.value <= low.value)
    requires high'.None? || (high.Some? && high.value <= high'.value)
    requires HighLowMask(data, width, channels, high, low).value[i]
    ensures HighLowMask(data, width, channels, high', low').value[i]
  {
  }
}
