/** The ber_calc_shm block: the reference fields it keeps, read_cbp and
    convert_transmit_vector_to_binary that fill them, and one call of work
    (refresh check, burst gate, preamble search and comparison). */
module BerCalcShm {
  import opened BitUnpack
  import opened ReferenceFrame
  import opened PreambleLocator
  import opened CircularComparator
  import opened BurstGate

  /** What a completed comparison yields: the mismatch count, the number of
      bits compared, the denominator of the printed error rate and the match
      offset it started from. */
  datatype Report = Report(errorCount: nat, compared: nat, denominator: nat, first: nat)

  /** How the measurement part of one work call ends. */
  datatype Outcome =
    | Idle                      // gate closed: the output is zeroed
    | TooShort                  // gate open, but N <= W: no search
    | NoMatch                   // the template does not occur in the input
    | Raised                    // N > W with an empty preamble: the search raises
    | Measured(report: Report)

  /** The measurement a work call makes with the gate open, on the reference
      state s and the N input bits. An empty preamble leaves the window fields
      unset or the template empty, and either way the search raises. */
  ghost function Measure(s: RefState, useFull: bool, input: seq<int>): (o: Outcome)
    requires Consistent(s, useFull)
    ensures o.Idle? == false
    ensures o.Measured? ==> o.report.first + o.report.denominator == |input| && o.report.denominator > 0
    ensures o.Measured? ==> o.report.errorCount <= o.report.compared
  {
    var w := s.window.length;
    if |input| <= w then TooShort
    else if |s.preambleBits| == 0 then Raised
    else
      ConsistentTemplate(s, useFull);
      var t := Template(s.preambleBits, s.window);
      var corr := FindSubsequence(input, t);
      if |corr| == 0 then NoMatch
      else
        var first := corr[0];
        assert first in corr;
        Measured(Report(ScheduledErrors(input, first, w, s.window.stop, s.preambleBits, s.payloadBits),
                        Comparisons(|input|, first, w), |input| - first, first))
  }

  /** What the measurement promises. A report is made exactly when the input
      is longer than W, the preamble is not empty and the template occurs; it
      starts from the earliest occurrence, compares every bit after the match
      and window but the last, counts at most that many errors, none exactly
      when the input follows the schedule, and divides by N - first > 0. */
  lemma MeasureSpec(s: RefState, useFull: bool, input: seq<int>)
    requires Consistent(s, useFull)
    ensures var o, w, pre := Measure(s, useFull, input), s.window.length, s.preambleBits;
      && (o.Raised? <==> |input| > w && |pre| == 0)
      && (o.TooShort? <==> |input| <= w)
      && (o.Measured? <==> |input| > w && |pre| > 0 && exists k: nat :: OccursAt(input, Template(pre, s.window), k))
  {
    var w, pre := s.window.length, s.preambleBits;
    if |input| > w && |pre| > 0 {
      ConsistentTemplate(s, useFull);
      var t := Template(pre, s.window);
      var corr := FindSubsequence(input, t);
      if |corr| > 0 {
        assert corr[0] in corr;
      } else {
        assert forall k: nat :: !OccursAt(input, t, k);
      }
    }
  }

  /** When the template occurs (at k0, say), a report is made. It starts from
      the earliest occurrence, holds the comparison count and the error count
      of the comparator's schedule (which ZeroErrorsIffAgrees and
      FlipChangesErrorsByOne characterise), and a positive denominator. */
  lemma ReportSpec(s: RefState, useFull: bool, input: seq<int>, k0: nat)
    requires Consistent(s, useFull)
    requires |input| > s.window.length && |s.preambleBits| > 0
    requires OccursAt(input, Template(s.preambleBits, s.window), k0)
    ensures Measure(s, useFull, input).Measured?
    ensures var r, t := Measure(s, useFull, input).report, Template(s.preambleBits, s.window);
      && OccursAt(input, t, r.first)
      && (forall k: nat :: OccursAt(input, t, k) ==> r.first <= k)
      && 0 < r.denominator == |input| - r.first
    ensures var r, w := Measure(s, useFull, input).report, s.window.length;
      && r.compared == Max0(|input| - (r.first + w + 1))
      && r.errorCount <= r.compared
    ensures var r, w := Measure(s, useFull, input).report, s.window.length;
      && Terminates(|input|, r.first, w, s.preambleBits, s.payloadBits)
      && r.errorCount == ScheduledErrors(input, r.first, w, s.window.stop, s.preambleBits, s.payloadBits)
  {
    var w, pre, pay, stop := s.window.length, s.preambleBits, s.payloadBits, s.window.stop;
    ConsistentTemplate(s, useFull);
    var t := Template(pre, s.window);
    var corr := FindSubsequence(input, t);
    assert k0 in corr;
    var first := corr[0];
    assert first in corr;
    var r := Report(ScheduledErrors(input, first, w, stop, pre, pay), Comparisons(|input|, first, w),
                    |input| - first, first);
    assert Measure(s, useFull, input).report == r;
    FirstIsEarliest(input, t);
  }

  /** The reference fields as the constructor leaves them before its first
      read_cbp: no vector, zero lengths, and the subset window length. */
  function InitialRef(): (r: RefState)
    ensures Consistent(r, false) && Consistent(r, true)
    ensures |r.preambleBits| == 0 && |r.payloadBits| == 0 && r.window.length == SUBSET_WINDOW_LENGTH
  {
    assert PySlice<int>([], 0, 0) == [] && Unpack(BITS_PER_ELEMENT, []) == [];
    RefState(0, 0, 0, [], 0, 0, 0, 0, [], [], 0, Window(SUBSET_WINDOW_LENGTH, 0, 0))
  }

  /** The block's fields. The reference fields that read_cbp and
      convert_transmit_vector_to_binary assign are kept together in `ref`. */
  class BerCalc {
    const channelId: int
    const useFullPreamble: bool
    var ref: RefState
    var workCounter: int
    var process: bool
    var bitCounter: int

    /** The fields the burst gate drives. */
    ghost function Gate(): GateState
      reads this
    {
      GateState(process, bitCounter)
    }

    ghost predicate Valid()
      reads this
    {
      && 0 <= workCounter <= REFRESH_PERIOD
      && bitCounter >= 0
      && Consistent(ref, useFullPreamble)
    }

    /** The block as built: gate closed, counters at zero, and the reference
        loaded once from the backplane. */
    constructor (channelId: int, useFullPreamble: bool, ch: ChannelHeader, f: FrameRecord, start: int)
      requires StartDrawOk(|PreambleBitsOf(f)|, useFullPreamble, start)
      ensures Valid()
      ensures this.channelId == channelId && this.useFullPreamble == useFullPreamble
      ensures ref == Reload(InitialRef(), ch, f, useFullPreamble, start)
      ensures workCounter == 0 && Gate() == GateState(false, 0)
    {
      this.channelId := channelId;
      this.useFullPreamble := useFullPreamble;
      ref := InitialRef();
      workCounter, process, bitCounter := 0, false, 0;
      new;
      assert PySlice<int>([], 0, 0) == [] && Unpack(BITS_PER_ELEMENT, []) == [];
      ReadCbp(ch, f, start);
    }

    /** read_cbp: store the channel and frame fields, recompute the bits, and
        choose the window again unless the new preamble is empty. */
    method ReadCbp(ch: ChannelHeader, f: FrameRecord, start: int)
      requires Valid()
      requires StartDrawOk(|PreambleBitsOf(f)|, useFullPreamble, start)
      modifies this`ref
      ensures Valid()
      ensures ref == Reload(old(ref), ch, f, useFullPreamble, start)
    {
      ref := ref.(activePointer := ch.activePointer, sampleRateHz := ch.sampleRateHz,
                  centerFreqHz := ch.centerFreqHz);
      ref := ref.(transmitVector := f.vector, length := f.length, instanceCount := f.numberOfInstances,
                  preambleLength := f.preambleLength, frameId := f.frameId);
      ConvertTransmitVectorToBinary();
      if |ref.preambleBits| > 0 {
        if useFullPreamble {
          ref := ref.(window := Window(|ref.preambleBits|, 0, |ref.preambleBits|));
        } else {
          ref := ref.(window := Window(ref.window.length, start, start + ref.window.length));
        }
      }
      ReloadConsistent(old(ref), ch, f, useFullPreamble, start);
    }

    /** convert_transmit_vector_to_binary: the first preambleLength elements
        and the rest up to the frame length, 8 bits each, and the total. */
    method ConvertTransmitVectorToBinary()
      modifies this`ref
      ensures ref == old(ref).(
        preambleBits := Unpack(BITS_PER_ELEMENT, PySlice(old(ref).transmitVector, 0, old(ref).preambleLength)),
        payloadBits := Unpack(BITS_PER_ELEMENT, PySlice(old(ref).transmitVector, old(ref).preambleLength, old(ref).length)),
        totalBitsTransmitted := old(ref).length * old(ref).instanceCount)
    {
      var pre := UnpackKBits(BITS_PER_ELEMENT, PySlice(ref.transmitVector, 0, ref.preambleLength));
      ref := ref.(preambleBits := pre[..]);
      var pay := UnpackKBits(BITS_PER_ELEMENT, PySlice(ref.transmitVector, ref.preambleLength, ref.length));
      ref := ref.(payloadBits := pay[..]);
      ref := ref.(totalBitsTransmitted := ref.length * ref.instanceCount);
    }

    /** The tag loop of work. */
    method ApplyTags(keys: seq<string>)
      modifies this`process, this`bitCounter
      ensures Gate() == ScanTags(old(Gate()), keys)
    {
      for i := 0 to |keys|
        invariant Gate() == ScanTags(old(Gate()), keys[..i])
      {
        if keys[i] == BEGIN_BURST {
          process := true;
        } else if keys[i] == END_BURST {
          process := false;
          bitCounter := 0;
        }
        assert keys[..i + 1][..i] == keys[..i];
      }
      assert keys[..|keys|] == keys;
    }

    /** The measurement of an open-gate call: search the input for the
        template and, past the first match, run the comparator. */
    method Compare(input: seq<int>) returns (outcome: Outcome)
      requires Valid()
      ensures outcome == Measure(ref, useFullPreamble, input)
    {
      var w := ref.window.length;
      if |input| <= w {
        return TooShort;
      }
      if |ref.preambleBits| == 0 {
        return Raised;
      }
      ConsistentTemplate(ref, useFullPreamble);
      var template := PySlice(ref.preambleBits, ref.window.start, ref.window.stop);
      var correlations := FindSubsequence(input, template);
      if |correlations| == 0 {
        return NoMatch;
      }
      var first := correlations[0];
      assert first in correlations;
      var errorCount, compared := CircularCompare(input, first, w, ref.window.stop, ref.preambleBits, ref.payloadBits);
      outcome := Measured(Report(errorCount, compared, |input| - first, first));
    }

    /** One call of work on N = |input| items. The frame the backplane holds
        (its header, channel header and vector) and the random window start
        are parameters; so are the keys of the tags in the call's window. */
    method Work(input: seq<int>, out: array<real>, ch: ChannelHeader, f: FrameRecord, start: int,
                keys: seq<string>)
      returns (produced: nat, polled: bool, reloaded: bool, outcome: Outcome)
      requires Valid()
      requires out.Length == |input|
      requires Polls(workCounter) && f.frameId != ref.frameId ==>
                 StartDrawOk(|PreambleBitsOf(f)|, useFullPreamble, start)
      modifies this, out
      ensures Valid()
      ensures produced == out.Length
      ensures polled == Polls(old(workCounter))
      ensures reloaded == (polled && f.frameId != old(ref.frameId))
      ensures workCounter == Tick(old(workCounter)) && 1 <= workCounter <= REFRESH_PERIOD
      ensures ref == if reloaded then Reload(old(ref), ch, f, useFullPreamble, start) else old(ref)
      ensures var g := ScanTags(old(Gate()), keys);
        process == g.process && bitCounter == (if g.process then g.bitCounter + |input| else g.bitCounter)
      ensures !process ==> outcome == Idle && out[..] == seq(|input|, _ => 0.0)
      ensures process ==> out[..] == old(out[..]) && outcome == Measure(ref, useFullPreamble, input)
    {
      polled := Polls(workCounter);
      reloaded := false;
      if polled {
        if f.frameId != ref.frameId {
          ReadCbp(ch, f, start);
          reloaded := true;
        }
        workCounter := 0;
      }
      workCounter := workCounter + 1;

      ghost var before := Gate();
      ApplyTags(keys);
      ScanTagsCounter(before, keys);

      produced := out.Length;
      if !process {
        forall i | 0 <= i < out.Length {
          out[i] := 0.0;
        }
        outcome := Idle;
        return;
      }
      bitCounter := bitCounter + |input|;
      outcome := Compare(input);
    }
  }
}
