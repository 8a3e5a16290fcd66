/** The reference frame read from the backplane: the transmitted vector split
    into preamble and payload bits (convert_transmit_vector_to_binary), and the
    preamble window used as the correlation template (the tail of read_cbp). */
module ReferenceFrame {
  import opened BitUnpack

  /** Number of bits that one transmitted vector element expands to. */
  const BITS_PER_ELEMENT: nat := 8
  /** Window length before any full-preamble load (bits_from_preamable_to_use). */
  const SUBSET_WINDOW_LENGTH: nat := 64
  /** Lower bound of the random window start in subset mode. */
  const SUBSET_START_MIN: nat := 20

  /** Python's `s[lo:hi]` for non-negative bounds: both ends are clipped to the
      length, and an inverted range is empty. */
  function PySlice<T>(s: seq<T>, lo: nat, hi: nat): (r: seq<T>)
    ensures |r| <= |s|
    ensures lo <= hi <= |s| ==> r == s[lo..hi]
    ensures hi <= lo ==> r == []
    ensures lo <= |s| <= hi ==> r == s[lo..]
    ensures |s| <= lo ==> r == []
  {
    var a := Min(lo, |s|);
    var b := Min(hi, |s|);
    if a <= b then s[a..b] else []
  }

  lemma PySliceSplit<T>(s: seq<T>, a: nat, b: nat)
    requires a <= b
    ensures PySlice(s, 0, a) + PySlice(s, a, b) == PySlice(s, 0, b)
  {
  }

  /** The frame header fields the block reads, with the vector the backplane
      reader returned for it. */
  datatype FrameRecord = FrameRecord(
    frameId: int,
    length: nat,
    numberOfInstances: int,
    preambleLength: nat,
    vector: seq<int>)

  /** The channel header fields the block stores. */
  datatype ChannelHeader = ChannelHeader(
    activePointer: int,
    centerFreqHz: int,
    sampleRateHz: int)

  /** The preamble window: its length W and the slice bounds [start, stop). */
  datatype Window = Window(length: nat, start: nat, stop: nat)

  function PreambleBitsOf(f: FrameRecord): seq<int> {
    Unpack(BITS_PER_ELEMENT, PySlice(f.vector, 0, f.preambleLength))
  }

  function PayloadBitsOf(f: FrameRecord): seq<int> {
    Unpack(BITS_PER_ELEMENT, PySlice(f.vector, f.preambleLength, f.length))
  }

  /** The two halves of the frame together are the whole clipped vector,
      unpacked; with a vector of the advertised length they hold exactly
      8 * preambleLength and 8 * (length - preambleLength) bits. */
  lemma FrameSplit(f: FrameRecord)
    requires f.preambleLength <= f.length
    ensures PreambleBitsOf(f) + PayloadBitsOf(f)
            == Unpack(BITS_PER_ELEMENT, PySlice(f.vector, 0, f.length))
    ensures |f.vector| == f.length ==>
              |PreambleBitsOf(f)| == BITS_PER_ELEMENT * f.preambleLength &&
              |PayloadBitsOf(f)| == BITS_PER_ELEMENT * (f.length - f.preambleLength)
  {
    PySliceSplit(f.vector, f.preambleLength, f.length);
    UnpackConcat(BITS_PER_ELEMENT, PySlice(f.vector, 0, f.preambleLength),
                 PySlice(f.vector, f.preambleLength, f.length));
  }

  /** The preamble length in bits is always a multiple of 8, so a non-empty
      preamble holds at least 8 bits. */
  lemma PreambleLength(f: FrameRecord)
    ensures |PreambleBitsOf(f)| == BITS_PER_ELEMENT * Min(f.preambleLength, |f.vector|)
    ensures |PreambleBitsOf(f)| == 0 || |PreambleBitsOf(f)| >= BITS_PER_ELEMENT
  {
  }

  /** Whether the random start drawn for a subset window is in the range
      `np.random.randint(20, P)` returns (the bound `len(preamble_bits - 20)`
      subtracts 20 from every element, so it is P, not P - 20). */
  predicate StartDrawOk(p: nat, useFull: bool, start: int) {
    p > 0 && !useFull ==> SUBSET_START_MIN <= start < p
  }

  /** The window chosen for a preamble of p bits; with p == 0 no window is set. */
  function SelectWindow(p: nat, useFull: bool, w: Window, start: int): (r: Window)
    requires StartDrawOk(p, useFull, start)
    ensures p == 0 ==> r == w
    ensures p > 0 ==> r.start < p && r.stop == r.start + r.length
    ensures p > 0 && useFull ==> r.start == 0 && r.length == p
    ensures p > 0 && !useFull ==> r.start == start && r.length == w.length
  {
    if p == 0 then w
    else if useFull then Window(p, 0, p)
    else Window(w.length, start, start + w.length)
  }

  /** The correlation template `preamble_bits[start:stop]`. */
  function Template(pre: seq<int>, w: Window): seq<int> {
    PySlice(pre, w.start, w.stop)
  }

  /** Window bounds: full mode takes the whole preamble; subset mode starts at
      the drawn index and keeps W, and its stop may run past the preamble, in
      which case the template is truncated. Either way the template is the
      preamble from start to min(stop, P) and holds between 1 and W bits. */
  lemma WindowBounds(pre: seq<int>, useFull: bool, w: Window, start: int)
    requires |pre| > 0 && w.length >= 1
    requires StartDrawOk(|pre|, useFull, start)
    ensures var w' := SelectWindow(|pre|, useFull, w, start);
      && w'.start < |pre|
      && w'.stop == w'.start + w'.length
      && Template(pre, w') == pre[w'.start..Min(w'.stop, |pre|)]
      && 1 <= |Template(pre, w')| <= w'.length
      && (useFull ==> w' == Window(|pre|, 0, |pre|) && Template(pre, w') == pre)
      && (!useFull ==> w'.length == w.length && w'.start == start)
  {
  }

  /** The reference state the block keeps in its fields. */
  datatype RefState = RefState(
    activePointer: int,
    sampleRateHz: int,
    centerFreqHz: int,
    transmitVector: seq<int>,
    length: nat,
    instanceCount: int,
    preambleLength: nat,
    frameId: int,
    preambleBits: seq<int>,
    payloadBits: seq<int>,
    totalBitsTransmitted: int,
    window: Window)

  /** What read_cbp leaves behind: the channel and frame fields replaced, the
      bits recomputed, and the window re-selected when the preamble is not
      empty. */
  function Reload(s: RefState, ch: ChannelHeader, f: FrameRecord, useFull: bool, start: int): (r: RefState)
    requires StartDrawOk(|PreambleBitsOf(f)|, useFull, start)
    ensures r.frameId == f.frameId && r.transmitVector == f.vector
    ensures |r.preambleBits| == BITS_PER_ELEMENT * Min(f.preambleLength, |f.vector|)
    ensures |r.preambleBits| == 0 ==> r.window == s.window
    ensures |r.preambleBits| > 0 ==> r.window.start < |r.preambleBits| && r.window.stop == r.window.start + r.window.length
  {
    PreambleLength(f);
    RefState(
      ch.activePointer, ch.sampleRateHz, ch.centerFreqHz,
      f.vector, f.length, f.numberOfInstances, f.preambleLength, f.frameId,
      PreambleBitsOf(f), PayloadBitsOf(f), f.length * f.numberOfInstances,
      SelectWindow(|PreambleBitsOf(f)|, useFull, s.window, start))
  }

  /** The invariant the block's reference fields keep between calls. */
  ghost predicate Consistent(s: RefState, useFull: bool) {
    && s.preambleBits == Unpack(BITS_PER_ELEMENT, PySlice(s.transmitVector, 0, s.preambleLength))
    && s.payloadBits == Unpack(BITS_PER_ELEMENT, PySlice(s.transmitVector, s.preambleLength, s.length))
    && s.totalBitsTransmitted == s.length * s.instanceCount
    && s.window.length >= 1
    && (!useFull ==> s.window.length == SUBSET_WINDOW_LENGTH)
    && (|s.preambleBits| > 0 ==>
          && s.window.start < |s.preambleBits|
          && s.window.stop == s.window.start + s.window.length
          && (useFull ==> s.window == Window(|s.preambleBits|, 0, |s.preambleBits|))
          && (!useFull ==> SUBSET_START_MIN <= s.window.start))
  }

  /** In a consistent state a non-empty preamble holds at least one element's
      worth of bits, and the template between 1 and W of them. */
  lemma ConsistentTemplate(s: RefState, useFull: bool)
    requires Consistent(s, useFull) && |s.preambleBits| > 0
    ensures |s.preambleBits| >= BITS_PER_ELEMENT
    ensures 1 <= |Template(s.preambleBits, s.window)| <= s.window.length
  {
    WindowBoundsOf(s.preambleBits, s.window);
  }

  /** A window that starts inside the preamble and spans `length` bits cuts a
      template of 1 to `length` bits. */
  lemma WindowBoundsOf(pre: seq<int>, w: Window)
    requires w.start < |pre| && w.stop == w.start + w.length && w.length >= 1
    ensures 1 <= |Template(pre, w)| <= w.length
  {
  }

  /** A reload keeps the invariant, and a non-empty reloaded template holds
      between 1 and W bits of the new preamble. */
  lemma ReloadConsistent(s: RefState, ch: ChannelHeader, f: FrameRecord, useFull: bool, start: int)
    requires Consistent(s, useFull)
    requires StartDrawOk(|PreambleBitsOf(f)|, useFull, start)
    ensures var s' := Reload(s, ch, f, useFull, start);
      && Consistent(s', useFull)
      && s'.frameId == f.frameId
      && (|s'.preambleBits| > 0 ==> 1 <= |Template(s'.preambleBits, s'.window)| <= s'.window.length)
      && (|s'.preambleBits| == 0 ==> s'.window == s.window)
  {
    var p := PreambleBitsOf(f);
    if |p| > 0 {
      WindowBounds(p, useFull, s.window, start);
    }
  }
}
