/**
 The audio back end as a state machine: pushes by the emulation thread, callbacks by the
 sound device, each a critical section on one buffer of interleaved stereo samples.
 */
module AudioModel {
  import opened Sequences
  import opened Wrappers

  const CAPACITY := 8192

  // What a channel's low-pass filter makes of its input so far. The filters are not
  // interpreted: two outputs are the same when the same filter has had the same inputs.
  datatype Sound = Silence | Filtered(channel: nat, inputs: seq<int>)

  // The inputs each filter has had.
  datatype Filters = Filters(left: seq<int>, right: seq<int>)

  // The filters after a pair of samples.
  function Tune(fs: Filters, left: int, right: int): Filters {
    Filters(fs.left + [left], fs.right + [right])
  }

  // The filters after interleaved samples, left first.
  function Tuned(fs: Filters, s: seq<int>): Filters
    requires |s| % 2 == 0
    decreases |s|
  {
    if s == [] then fs else Tuned(Tune(fs, s[0], s[1]), s[2..])
  }

  // Their outputs.
  function Stereo(fs: Filters, s: seq<int>): (r: seq<Sound>)
    requires |s| % 2 == 0
    ensures |r| == |s|
    decreases |s|
  {
    if s == [] then []
    else
      var fs' := Tune(fs, s[0], s[1]);
      [Filtered(0, fs'.left), Filtered(1, fs'.right)] + Stereo(fs', s[2..])
  }

  lemma {:induction false} StereoConcat(fs: Filters, s: seq<int>, t: seq<int>)
    requires |s| % 2 == 0 && |t| % 2 == 0
    ensures Tuned(fs, s + t) == Tuned(Tuned(fs, s), t)
    ensures Stereo(fs, s + t) == Stereo(fs, s) + Stereo(Tuned(fs, s), t)
    decreases |s|
  {
    if s == [] {
      assert s + t == t;
    } else {
      assert (s + t)[2..] == s[2..] + t;
      StereoConcat(Tune(fs, s[0], s[1]), s[2..], t);
    }
  }

  // One channel of interleaved samples: 0 is left, 1 is right.
  function Channel(s: seq<int>, c: nat): (r: seq<int>)
    requires |s| % 2 == 0 && c < 2
    ensures |r| == |s| / 2
    decreases |s|
  {
    if s == [] then [] else [s[c]] + Channel(s[2..], c)
  }

  function Inputs(fs: Filters, c: nat): seq<int> {
    if c == 0 then fs.left else fs.right
  }

  lemma ChannelCons(s: seq<int>, c: nat)
    requires |s| % 2 == 0 && |s| >= 2 && c < 2
    ensures Channel(s, c) == [s[c]] + Channel(s[2..], c) && |Channel(s[2..], c)| == |s| / 2 - 1
  {
  }

  // The inputs of one side up to place n, one pair further on.
  lemma {:induction false} PrefixStep(fs: Filters, s: seq<int>, c: nat, n: nat)
    requires |s| % 2 == 0 && |s| >= 2 && c < 2 && n <= |s| / 2 - 1
    ensures |Channel(s[2..], c)| == |s| / 2 - 1
    ensures Inputs(fs, c) + Channel(s, c)[..n + 1]
      == Inputs(Tune(fs, s[0], s[1]), c) + Channel(s[2..], c)[..n]
  {
    ChannelCons(s, c);
    var rest := Channel(s[2..], c);
    ConsPrefix(s[c], rest, n);
    Chained(Inputs(fs, c), [s[c]], rest[..n]);
  }

  lemma StereoSplit(fs: Filters, s: seq<int>, k: nat)
    requires |s| % 2 == 0 && k < |s|
    ensures var fs' := Tune(fs, s[0], s[1]);
      Stereo(fs, s)[k] == if k < 2 then Filtered(k % 2, Inputs(fs', k % 2)) else Stereo(fs', s[2..])[k - 2]
  {
  }

  // Sound k comes out of the filter of its own side, which has had the samples of that side
  // up to k in order, and none of the other side's.
  lemma {:induction false} ChannelsStayApart(fs: Filters, s: seq<int>, k: nat)
    requires |s| % 2 == 0 && k < |s|
    ensures Stereo(fs, s)[k] == Filtered(k % 2, Inputs(fs, k % 2) + Channel(s, k % 2)[..k / 2 + 1])
    decreases |s|
  {
    PrefixStep(fs, s, k % 2, k / 2);
    StereoSplit(fs, s, k);
    if k >= 2 {
      ChannelsStayApart(Tune(fs, s[0], s[1]), s[2..], k - 2);
    }
  }

  // ------------------------------------------------------------------------ the machine

  // waiting: the push that waits for a callback. played: every sample that has left the
  // buffer; heard: what became of them.
  datatype State = State(sync: bool, waiting: Option<seq<int>>, buffered: seq<int>,
                         filters: Filters, played: seq<int>, heard: seq<Sound>)

  datatype Step = Push(buf: seq<int>) | Resume | Callback(samples: nat) | SetSync(on: bool)

  // The wait condition of PushSamples.
  predicate Ready(buffered: nat, limit: nat, len: nat) {
    CAPACITY - buffered >= len && buffered < limit
  }

  // Both sides deal in pairs.
  predicate Stereophonic(step: Step) {
    match step
    case Push(buf) => |buf| % 2 == 0
    case Resume => true
    case Callback(samples) => samples % 2 == 0
    case SetSync(_) => true
  }

  // One push at a time. One that waits goes on when its condition holds, whatever has become
  // of the flag.
  predicate Enabled(s: State, limit: nat, step: Step) {
    match step
    case Push(_) => s.waiting == None
    case Resume => s.waiting.Some? && Ready(|s.buffered|, limit, |s.waiting.value|)
    case Callback(_) => true
    case SetSync(_) => true
  }

  // A push that finds the flag set and its condition false waits.
  predicate MustWait(s: State, limit: nat, len: nat) {
    s.sync && !Ready(|s.buffered|, limit, len)
  }

  // How many samples of a push are stored.
  function Stored(buffered: nat, len: nat): nat
    requires buffered <= CAPACITY
  {
    Min(len, CAPACITY - buffered)
  }

  // Every sample that was ever stored.
  function Accepted(s: State): seq<int> {
    s.played + s.buffered
  }

  const FRESH := Filters([], [])

  // The samples a waiting push holds back.
  function Held(s: State): seq<int> {
    if s.waiting.Some? then s.waiting.value else []
  }

  ghost predicate Inv(s: State) {
    && |Held(s)| % 2 == 0 && |s.buffered| <= CAPACITY && |s.buffered| % 2 == 0 && |s.played| % 2 == 0
    && s.filters == Tuned(FRESH, s.played) && s.heard == Stereo(FRESH, s.played)
  }

  function Next(s: State, limit: nat, step: Step): State
    requires |s.buffered| <= CAPACITY && |s.buffered| % 2 == 0 && Stereophonic(step)
  {
    match step
    case Push(buf) =>
      if MustWait(s, limit, |buf|) then s.(waiting := Some(buf))
      else s.(buffered := s.buffered + buf[..Stored(|s.buffered|, |buf|)])
    case Resume =>
      s.(waiting := None, buffered := s.buffered + Held(s)[..Stored(|s.buffered|, |Held(s)|)])
    case Callback(samples) =>
      var n := Min(|s.buffered|, samples);
      var out := s.buffered[..n];
      s.(buffered := s.buffered[n..], played := s.played + out,
         filters := Tuned(s.filters, out), heard := s.heard + Stereo(s.filters, out))
    case SetSync(on) => s.(sync := on)
  }

  lemma StepKeepsInv(s: State, limit: nat, step: Step)
    requires Inv(s) && Stereophonic(step)
    ensures Inv(Next(s, limit, step))
  {
    match step
    case Push(_) =>
    case Resume =>
    case Callback(samples) => StereoConcat(FRESH, s.played, s.buffered[..Min(|s.buffered|, samples)]);
    case SetSync(_) =>
  }

  ghost predicate CanRun(s: State, limit: nat, steps: seq<Step>)
    requires Inv(s)
    decreases |steps|
  {
    steps != [] ==>
      && Enabled(s, limit, steps[0]) && Stereophonic(steps[0])
      && (StepKeepsInv(s, limit, steps[0]); CanRun(Next(s, limit, steps[0]), limit, steps[1..]))
  }

  ghost function After(s: State, limit: nat, steps: seq<Step>): (t: State)
    requires Inv(s) && CanRun(s, limit, steps)
    ensures Inv(t)
    decreases |steps|
  {
    if steps == [] then s
    else (StepKeepsInv(s, limit, steps[0]); After(Next(s, limit, steps[0]), limit, steps[1..]))
  }

  // All samples given to the back end.
  function Pushed(steps: seq<Step>): seq<int> {
    if steps == [] then [] else (if steps[0].Push? then steps[0].buf else []) + Pushed(steps[1..])
  }

  predicate StaysSynced(steps: seq<Step>) {
    forall i :: 0 <= i < |steps| && steps[i].SetSync? ==> steps[i].on
  }

  function Init(sync: bool): State {
    State(sync, None, [], FRESH, [], [])
  }

  // The samples leave in the order in which they were stored, and sound k is what the filter
  // of its own side makes of that side's samples up to k.
  lemma HeardInOrder(s: State, limit: nat, steps: seq<Step>)
    requires Inv(s) && CanRun(s, limit, steps)
    ensures var t := After(s, limit, steps);
      && |t.played| % 2 == 0 && |t.heard| == |t.played|
      && forall k :: 0 <= k < |t.heard| ==> t.heard[k] == Filtered(k % 2, Channel(t.played, k % 2)[..k / 2 + 1])
  {
    var t := After(s, limit, steps);
    forall k | 0 <= k < |t.heard|
      ensures t.heard[k] == Filtered(k % 2, Channel(t.played, k % 2)[..k / 2 + 1])
    {
      ChannelsStayApart(FRESH, t.played, k);
      assert [] + Channel(t.played, k % 2)[..k / 2 + 1] == Channel(t.played, k % 2)[..k / 2 + 1];
    }
  }

  // Without sync samples may be dropped at the end of a push, but only whole pairs.
  lemma {:induction false} StoresPairs(s: State, limit: nat, steps: seq<Step>)
    requires Inv(s) && CanRun(s, limit, steps)
    ensures Accepted(s) <= Accepted(After(s, limit, steps))
    ensures |Accepted(After(s, limit, steps))| % 2 == 0
    decreases |steps|
  {
    if steps != [] {
      StepKeepsInv(s, limit, steps[0]);
      StoresPairs(Next(s, limit, steps[0]), limit, steps[1..]);
    }
  }

  // A push waits exactly when sync is on and it does not fit or the limit has been reached. One
  // that does not wait is stored up to its end or until the buffer is full.
  lemma PushStores(s: State, limit: nat, buf: seq<int>)
    requires |s.buffered| <= CAPACITY && |s.buffered| % 2 == 0 && |buf| % 2 == 0 && Enabled(s, limit, Push(buf))
    ensures var t, b := Next(s, limit, Push(buf)), |s.buffered|;
      if s.sync && (b + |buf| > 8192 || b >= limit) then t == s.(waiting := Some(buf))
      else
        && t == s.(buffered := t.buffered) && s.buffered <= t.buffered <= s.buffered + buf
        && (t.buffered == s.buffered + buf || |t.buffered| == 8192)
  {
    var n := Stored(|s.buffered|, |buf|);
    assert n == |buf| ==> buf[..n] == buf;
  }

  // A push that waits is stored in full when it goes on, even if the flag has been cleared.
  lemma ResumeStoresAll(s: State, limit: nat)
    requires |s.buffered| <= CAPACITY && |s.buffered| % 2 == 0 && Enabled(s, limit, Resume)
    ensures Next(s, limit, Resume) == s.(waiting := None, buffered := s.buffered + Held(s))
    ensures Accepted(Next(s, limit, Resume)) == Accepted(s) + Held(s)
  {
    assert Held(s)[..|Held(s)|] == Held(s);
    Chained(s.played, s.buffered, Held(s));
  }

  lemma PairsJoin(a: seq<int>, b: seq<int>)
    requires |a| % 2 == 0 && |b| % 2 == 0
    ensures |a + b| % 2 == 0
  {
  }

  // A callback takes whole pairs.
  lemma PairsLeft(buffered: seq<int>, samples: nat)
    requires |buffered| % 2 == 0 && samples % 2 == 0
    ensures |buffered[Min(|buffered|, samples)..]| % 2 == 0
  {
  }

  // What one step makes of the samples stored and held back, with the flag set.
  lemma SyncedStep(s: State, limit: nat, step: Step)
    requires Inv(s) && Enabled(s, limit, step) && Stereophonic(step) && s.sync
    ensures var t := Next(s, limit, step);
      Accepted(t) + Held(t) == Accepted(s) + Held(s) + (if step.Push? then step.buf else [])
  {
    var t := Next(s, limit, step);
    match step
    case Push(buf) =>
      assert buf[..|buf|] == buf;
      assert Accepted(s) + Held(s) == Accepted(s);
    case Resume =>
      ResumeStoresAll(s, limit);
    case Callback(samples) =>
      assert Accepted(t) == Accepted(s);
    case SetSync(_) =>
  }

  // With sync on no pushed sample is lost: all are stored but those of a push still waiting.
  lemma {:induction false} SyncLosesNothing(s: State, limit: nat, steps: seq<Step>)
    requires Inv(s) && CanRun(s, limit, steps)
    requires s.sync && StaysSynced(steps)
    ensures var t := After(s, limit, steps);
      Accepted(t) + Held(t) == Accepted(s) + Held(s) + Pushed(steps)
    decreases |steps|
  {
    if steps != [] {
      var step := steps[0];
      StepKeepsInv(s, limit, step);
      SyncedStep(s, limit, step);
      assert step.SetSync? ==> step.on;
      SyncLosesNothing(Next(s, limit, step), limit, steps[1..]);
      Chained(Accepted(s) + Held(s), if step.Push? then step.buf else [], Pushed(steps[1..]));
    }
  }

  // ----------------------------------------------------------------------- the wait ends

  // The occupancy after callbacks of the given lengths.
  function Drained(buffered: nat, lens: seq<nat>): nat {
    if lens == [] then buffered else Drained(buffered - Min(buffered, lens[0]), lens[1..])
  }

  lemma {:induction false} DrainedLess(buffered: nat, lens: seq<nat>)
    requires forall i :: 0 <= i < |lens| ==> lens[i] > 0
    ensures Drained(buffered, lens) <= Max(0, buffered - |lens|)
  {
    if lens != [] {
      DrainedLess(buffered - Min(buffered, lens[0]), lens[1..]);
    }
  }

  // Callbacks let a waiting push proceed exactly when it fits the buffer and the limit is
  // positive; then as many callbacks as there are samples are enough, whatever their lengths.
  lemma WaitEnds(buffered: nat, limit: nat, len: nat)
    requires buffered <= CAPACITY
    ensures (exists lens: seq<nat> :: Ready(Drained(buffered, lens), limit, len)) <==> len <= CAPACITY && limit > 0
    ensures len <= CAPACITY && limit > 0 ==>
      forall lens: seq<nat> :: |lens| >= buffered && (forall i :: 0 <= i < |lens| ==> lens[i] > 0) ==>
        Ready(Drained(buffered, lens), limit, len)
  {
    forall lens: seq<nat> | |lens| >= buffered && forall i :: 0 <= i < |lens| ==> lens[i] > 0
      ensures Drained(buffered, lens) == 0
    {
      DrainedLess(buffered, lens);
    }
    var ones := seq(buffered, _ => 1);
    assert Drained(buffered, ones) == 0;
  }
}
