/** The two small state machines at the head of ber_calc_shm.work: the refresh
    counter that decides when the backplane is polled, and the burst gate
    driven by the "Begin Burst" / "End Burst" stream tags. */
module BurstGate {

  const BEGIN_BURST: string := "Begin Burst"
  const END_BURST: string := "End Burst"
  /** The backplane is polled on every REFRESH_PERIOD-th call. */
  const REFRESH_PERIOD: nat := 100

  /** Whether a call that finds `workCounter` in the field polls the backplane. */
  predicate Polls(workCounter: int)
    ensures 0 <= workCounter <= REFRESH_PERIOD ==>
              (Polls(workCounter) <==> workCounter == 0 || workCounter == REFRESH_PERIOD)
  {
    workCounter % REFRESH_PERIOD == 0
  }

  /** The counter a call leaves behind: reset to 0 when it polled, then
      incremented. */
  function Tick(workCounter: int): (r: int)
    ensures 0 <= workCounter <= REFRESH_PERIOD ==> 1 <= r <= REFRESH_PERIOD
    ensures Polls(workCounter) <==> r == 1
  {
    (if Polls(workCounter) then 0 else workCounter) + 1
  }

  /** The counter after n calls, starting from 0 as the constructor leaves it. */
  function CounterAfter(n: nat): int {
    if n == 0 then 0 else Tick(CounterAfter(n - 1))
  }

  /** Closed form of the counter: it runs 1, 2, ..., 100, 1, 2, ... */
  lemma {:induction false} CounterClosedForm(n: nat)
    ensures CounterAfter(n) == if n == 0 then 0 else (n - 1) % REFRESH_PERIOD + 1
  {
    if n > 1 {
      CounterClosedForm(n - 1);
      var c := (n - 2) % REFRESH_PERIOD + 1;
      if c == REFRESH_PERIOD {
        assert (n - 2) % REFRESH_PERIOD == REFRESH_PERIOD - 1;
        assert (n - 1) % REFRESH_PERIOD == 0;
      } else {
        assert (n - 1) % REFRESH_PERIOD == (n - 2) % REFRESH_PERIOD + 1;
      }
    }
  }

  /** Call number n + 1 polls the backplane exactly when n is a multiple of
      100: the calls that poll are the 1st, the 101st, the 201st, ... */
  lemma PollsOnCall(n: nat)
    ensures Polls(CounterAfter(n)) <==> n % REFRESH_PERIOD == 0
    ensures 1 <= CounterAfter(n + 1) <= REFRESH_PERIOD
  {
    CounterClosedForm(n);
    CounterClosedForm(n + 1);
  }

  /** The fields the tag loop updates. */
  datatype GateState = GateState(process: bool, bitCounter: int)

  predicate IsBurstTag(key: string) {
    key == BEGIN_BURST || key == END_BURST
  }

  /** One tag: "Begin Burst" opens the gate, "End Burst" closes it and clears
      the bit counter, any other key changes nothing. */
  function TagStep(g: GateState, key: string): (r: GateState)
    ensures !IsBurstTag(key) ==> r == g
    ensures IsBurstTag(key) ==> r.process == (key == BEGIN_BURST)
    ensures r.bitCounter == if key == END_BURST then 0 else g.bitCounter
  {
    if key == BEGIN_BURST then g.(process := true)
    else if key == END_BURST then GateState(false, 0)
    else g
  }

  /** The tag loop: the keys in order, each applied to the state the previous
      ones left. */
  function ScanTags(g: GateState, keys: seq<string>): (r: GateState)
    ensures r.bitCounter == 0 || r.bitCounter == g.bitCounter
    ensures g.bitCounter >= 0 ==> r.bitCounter >= 0
  {
    if |keys| == 0 then g else TagStep(ScanTags(g, keys[..|keys| - 1]), keys[|keys| - 1])
  }

  /** Scanning two runs of tags in turn is scanning them together. */
  lemma {:induction false} ScanTagsConcat(g: GateState, a: seq<string>, b: seq<string>)
    ensures ScanTags(g, a + b) == ScanTags(ScanTags(g, a), b)
  {
    if |b| == 0 {
      assert a + b == a;
    } else {
      ScanTagsConcat(g, a, b[..|b| - 1]);
      assert (a + b)[..|a + b| - 1] == a + b[..|b| - 1];
    }
  }

  /** The gate is decided by the last burst tag: open when it is "Begin
      Burst", closed when it is "End Burst", and unchanged without one. */
  lemma {:induction false} ScanTagsProcess(g: GateState, keys: seq<string>)
    ensures (forall i :: 0 <= i < |keys| ==> !IsBurstTag(keys[i])) ==> ScanTags(g, keys).process == g.process
    ensures forall i :: 0 <= i < |keys| && IsBurstTag(keys[i]) &&
                        (forall j :: i < j < |keys| ==> !IsBurstTag(keys[j])) ==>
                        ScanTags(g, keys).process == (keys[i] == BEGIN_BURST)
  {
    if |keys| > 0 {
      var init := keys[..|keys| - 1];
      ScanTagsProcess(g, init);
      assert forall i :: 0 <= i < |init| ==> init[i] == keys[i];
    }
  }

  /** The bit counter is cleared exactly by an "End Burst" tag; "Begin Burst"
      and every other key leave it alone. */
  lemma {:induction false} ScanTagsCounter(g: GateState, keys: seq<string>)
    ensures END_BURST in keys ==> ScanTags(g, keys).bitCounter == 0
    ensures END_BURST !in keys ==> ScanTags(g, keys).bitCounter == g.bitCounter
  {
    if |keys| > 0 {
      var init := keys[..|keys| - 1];
      ScanTagsCounter(g, init);
      assert keys == init + [keys[|keys| - 1]];
      assert END_BURST in keys <==> END_BURST in init || keys[|keys| - 1] == END_BURST;
    }
  }
}
