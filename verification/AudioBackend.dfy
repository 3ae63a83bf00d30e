/**
 The audio back end's two critical sections over the ring buffer. Sounds stand for the
 samples the low-pass filters put out.
 */
module AudioBackend {
  import opened Wrappers
  import opened Sequences
  import opened AudioModel
  import RingBuffer

  lemma CapacityOk()
    ensures RingBuffer.SizeOk(CAPACITY, 64)
  {
    assert RingBuffer.Pow2(4) == 16;
    RingBuffer.PowDivides(4, 8);
    RingBuffer.PowDivides(8, 12);
    assert RingBuffer.Pow2(13) == CAPACITY;
    assert RingBuffer.IsPow2(CAPACITY);
    RingBuffer.PowerOfTwoTest(CAPACITY);
    RingBuffer.PowGrows(14, 64);
  }

  // What a callback for so many samples puts out.
  ghost function Played(s: State, samples: nat): seq<Sound>
    requires |s.buffered| % 2 == 0 && samples % 2 == 0
  {
    var n := Min(|s.buffered|, samples);
    Stereo(s.filters, s.buffered[..n]) + Silent(samples - n)
  }

  function Silent(n: nat): seq<Sound> {
    seq(n, _ => Silence)
  }

  // The first i sounds are in place and the filters have had their samples.
  ghost predicate Playing(d: seq<Sound>, rest: seq<Sound>, fs: Filters, start: Filters, out: seq<int>, i: nat) {
    && i <= |out| <= |rest| == |d| && i % 2 == 0 == |out| % 2
    && d[i..] == rest[i..] && Tuned(fs, out[i..]) == Tuned(start, out)
    && d[..i] + Stereo(fs, out[i..]) == Stereo(start, out)
  }

  lemma PlayingAdvances(d: seq<Sound>, rest: seq<Sound>, fs: Filters, start: Filters, out: seq<int>, i: nat)
    requires Playing(d, rest, fs, start, out, i) && i < |out|
    ensures var fs' := Tune(fs, out[i], out[i + 1]);
      Playing(d[i := Filtered(0, fs'.left)][i + 1 := Filtered(1, fs'.right)], rest, fs', start, out, i + 2)
  {
    var fs' := Tune(fs, out[i], out[i + 1]);
    var pair := [Filtered(0, fs'.left), Filtered(1, fs'.right)];
    var d' := d[i := pair[0]][i + 1 := pair[1]];
    assert out[i..][2..] == out[i + 2..] && out[i..][0] == out[i] && out[i..][1] == out[i + 1];
    assert Tuned(fs, out[i..]) == Tuned(fs', out[i + 2..]);
    assert Stereo(fs, out[i..]) == pair + Stereo(fs', out[i + 2..]);
    assert d'[..i + 2] == d[..i] + pair;
    assert d'[i + 2..] == rest[i + 2..] by { assert d'[i + 2..] == d[i..][2..] && rest[i + 2..] == rest[i..][2..]; }
    Chained(d[..i], pair, Stereo(fs', out[i + 2..]));
  }

  // What is put out, sound by sound.
  lemma PlayedSounds(s: State, samples: nat, d: seq<Sound>)
    requires |s.buffered| % 2 == 0 && samples % 2 == 0 && samples <= |d| && d[..samples] == Played(s, samples)
    ensures var n := Min(|s.buffered|, samples);
      && n % 2 == 0 && (forall k :: n <= k < samples ==> d[k] == Silence)
      && forall k :: 0 <= k < n ==>
        d[k] == Filtered(k % 2, Inputs(s.filters, k % 2) + Channel(s.buffered[..n], k % 2)[..k / 2 + 1])
  {
    var n := Min(|s.buffered|, samples);
    forall k | 0 <= k < n
      ensures d[k] == Filtered(k % 2, Inputs(s.filters, k % 2) + Channel(s.buffered[..n], k % 2)[..k / 2 + 1])
    {
      ChannelsStayApart(s.filters, s.buffered[..n], k);
      assert d[k] == d[..samples][k];
    }
    forall k | n <= k < samples
      ensures d[k] == Silence
    {
      assert d[k] == d[..samples][k];
    }
  }

  // Sounds written over silence.
  lemma OverSilence(was: seq<Sound>, s: State, toRead: nat, samples: nat)
    requires |s.buffered| % 2 == 0 && samples % 2 == 0 && samples <= |was| && toRead == Min(|s.buffered|, samples)
    ensures Stereo(s.filters, s.buffered[..toRead]) + (Silent(samples) + was[samples..])[toRead..]
      == Played(s, samples) + was[samples..]
  {
    assert (Silent(samples) + was[samples..])[toRead..] == Silent(samples - toRead) + was[samples..];
  }

  class AudioBackend {
    const audioBuffer: RingBuffer.Ringbuffer<int>
    const bufferLimit: nat
    var syncToAudio: bool
    var filters: Filters
    ghost var waiting: Option<seq<int>>
    ghost var played: seq<int>
    ghost var heard: seq<Sound>

    ghost predicate Valid()
      reads this, audioBuffer, audioBuffer.data
    {
      audioBuffer.Valid() && audioBuffer.size == CAPACITY && audioBuffer.width == 64
      && |audioBuffer.contents| % 2 == 0
    }

    ghost function Model(): State
      reads this, audioBuffer
    {
      State(syncToAudio, waiting, audioBuffer.contents, filters, played, heard)
    }

    constructor (limit: nat)
      ensures Valid() && Model() == Init(true) && bufferLimit == limit
      ensures fresh(audioBuffer) && fresh(audioBuffer.data)
    {
      CapacityOk();
      audioBuffer := new RingBuffer.Ringbuffer(CAPACITY, 64);
      bufferLimit := limit;
      syncToAudio, filters := true, FRESH;
      waiting, played, heard := None, [], [];
    }

    // The constructor of the program with its exits, for which null stands: the limit must be
    // below what the empty buffer can take, and the device must open.
    static method Create(limit: nat, opens: bool) returns (b: AudioBackend?)
      ensures b == null <==> limit >= CAPACITY || !opens
      ensures b != null ==> fresh(b) && b.Valid() && b.Model() == Init(true) && b.bufferLimit == limit
    {
      b := new AudioBackend(limit);
      var available := b.audioBuffer.WriteAvailable();
      if limit >= available || !opens {
        b := null;
      }
    }

    // PushSamples from the moment it takes the lock until it gives the lock up, either to wait
    // for a callback (done is false) or for good.
    method PushSamples(buf: seq<int>) returns (done: bool)
      requires Valid() && |buf| % 2 == 0 && Enabled(Model(), bufferLimit, Push(buf))
      modifies this`waiting, audioBuffer`head, audioBuffer`contents, audioBuffer.data
      ensures Valid() && Model() == Next(old(Model()), bufferLimit, Push(buf))
      ensures done <==> waiting == None
      ensures var b := |old(audioBuffer.contents)|;
        && (done <==> !syncToAudio || (b + |buf| <= 8192 && b < bufferLimit))
        && audioBuffer.contents == old(audioBuffer.contents) + if done then buf[..Min(|buf|, 8192 - b)] else []
    {
      if syncToAudio {
        var free := audioBuffer.WriteAvailable();
        var used := audioBuffer.ReadAvailable();
        if free < |buf| || used >= bufferLimit {
          waiting := Some(buf);
          return false;
        }
      }
      var n := audioBuffer.WriteBuff(buf);
      return true;
    }

    // A push that waits, each time it has the lock again: it looks at its condition, not at the
    // flag, and waits on or stores its samples.
    method Resume(buf: seq<int>) returns (done: bool)
      requires Valid() && |buf| % 2 == 0 && waiting == Some(buf)
      modifies this`waiting, audioBuffer`head, audioBuffer`contents, audioBuffer.data
      ensures Valid() && done == Enabled(old(Model()), bufferLimit, Step.Resume)
      ensures Model() == if done then Next(old(Model()), bufferLimit, Step.Resume) else old(Model())
      ensures done <==> |old(audioBuffer.contents)| + |buf| <= 8192 && |old(audioBuffer.contents)| < bufferLimit
      ensures done ==> audioBuffer.contents == old(audioBuffer.contents) + buf
    {
      var free := audioBuffer.WriteAvailable();
      var used := audioBuffer.ReadAvailable();
      if free < |buf| || used >= bufferLimit {
        return false;
      }
      ResumeStoresAll(Model(), bufferLimit);
      StoreWaiting(buf);
      return true;
    }

    // The end of a push that has waited.
    method StoreWaiting(buf: seq<int>)
      requires Valid() && |buf| % 2 == 0 && |audioBuffer.contents| + |buf| <= CAPACITY
      modifies this`waiting, audioBuffer`head, audioBuffer`contents, audioBuffer.data
      ensures Valid() && Model() == old(Model()).(waiting := None, buffered := old(audioBuffer.contents) + buf)
    {
      PairsJoin(audioBuffer.contents, buf);
      var n := audioBuffer.WriteBuff(buf);
      assert buf[..n] == buf;
      waiting := None;
    }

    // One round of the callback's loop.
    method PlayPair(dest: array<Sound>, i: nat)
      requires audioBuffer.Valid() && |audioBuffer.contents| >= 2 && i + 1 < dest.Length
      modifies this`filters, audioBuffer`tail, audioBuffer`contents, dest
      ensures audioBuffer.Valid() && audioBuffer.contents == old(audioBuffer.contents)[2..]
      ensures filters == Tune(old(filters), old(audioBuffer.contents)[0], old(audioBuffer.contents)[1])
      ensures dest[..] == old(dest[..])[i := Filtered(0, filters.left)][i + 1 := Filtered(1, filters.right)]
    {
      var l := audioBuffer.RemoveInto();
      var r := audioBuffer.RemoveInto();
      filters := Tune(filters, l.value, r.value);
      dest[i], dest[i + 1] := Filtered(0, filters.left), Filtered(1, filters.right);
    }

    // The callback's loop.
    method PlayPairs(dest: array<Sound>, toRead: nat)
      requires audioBuffer.Valid() && toRead <= |audioBuffer.contents| && toRead % 2 == 0 && toRead <= dest.Length
      modifies this`filters, audioBuffer`tail, audioBuffer`contents, dest
      ensures audioBuffer.Valid() && audioBuffer.contents == old(audioBuffer.contents)[toRead..]
      ensures filters == Tuned(old(filters), old(audioBuffer.contents)[..toRead])
      ensures dest[..] == Stereo(old(filters), old(audioBuffer.contents)[..toRead]) + old(dest[toRead..])
    {
      ghost var out, start, rest := audioBuffer.contents[..toRead], filters, dest[..];
      var i := 0;
      while i < toRead
        invariant 0 <= i <= toRead && i % 2 == 0 && audioBuffer.Valid()
        invariant audioBuffer.contents == old(audioBuffer.contents)[i..]
        invariant Playing(dest[..], rest, filters, start, out, i)
      {
        PlayingAdvances(dest[..], rest, filters, start, out, i);
        PlayPair(dest, i);
        i := i + 2;
      }
    }

    // fill_n
    method Clear(dest: array<Sound>, n: nat)
      requires n <= dest.Length
      modifies dest
      ensures dest[..] == Silent(n) + old(dest[n..])
    {
      forall i | 0 <= i < n {
        dest[i] := Silence;
      }
    }

    // What the callback does to the filters, the buffer and the destination.
    method Play(dest: array<Sound>, samples: nat)
      requires Valid() && samples % 2 == 0 && samples <= dest.Length
      modifies this`filters, audioBuffer`tail, audioBuffer`contents, dest
      ensures audioBuffer.Valid()
      ensures dest[..] == Played(old(Model()), samples) + old(dest[samples..])
      ensures var n := Min(|old(audioBuffer.contents)|, samples);
        && audioBuffer.contents == old(audioBuffer.contents)[n..]
        && filters == Tuned(old(filters), old(audioBuffer.contents)[..n])
    {
      ghost var m, was := Model(), dest[..];
      Clear(dest, samples);
      var available := audioBuffer.ReadAvailable();
      var toRead := if samples < available then samples else available;
      PlayPairs(dest, toRead);
      OverSilence(was, m, toRead, samples);
    }

    // audio_callback for a number of samples
    method CallbackFor(dest: array<Sound>, samples: nat)
      requires Valid() && samples % 2 == 0 && samples <= dest.Length
      modifies this`filters, this`played, this`heard, audioBuffer`tail, audioBuffer`contents, dest
      ensures Valid() && Model() == Next(old(Model()), bufferLimit, AudioModel.Callback(samples))
      ensures dest[..] == Played(old(Model()), samples) + old(dest[samples..])
    {
      ghost var next := Next(Model(), bufferLimit, AudioModel.Callback(samples));
      PairsLeft(audioBuffer.contents, samples);
      Play(dest, samples);
      played, heard := next.played, next.heard;
    }

    // audio_callback; the device asks for len bytes of 16-bit stereo.
    method Callback(dest: array<Sound>, len: nat)
      requires Valid() && len % 4 == 0 && len / 2 <= dest.Length
      modifies this`filters, this`played, this`heard, audioBuffer`tail, audioBuffer`contents, dest
      ensures Valid() && len / 2 % 2 == 0
      ensures Model() == Next(old(Model()), bufferLimit, AudioModel.Callback(len / 2))
      ensures dest[..] == Played(old(Model()), len / 2) + old(dest[len / 2..])
      ensures var n := Min(|old(audioBuffer.contents)|, len / 2);
        && audioBuffer.contents == old(audioBuffer.contents)[n..] && n % 2 == 0
        && (forall k :: n <= k < len / 2 ==> dest[k] == Silence)
        && forall k :: 0 <= k < n ==> dest[k] == Filtered(
          k % 2, Inputs(old(filters), k % 2) + Channel(old(audioBuffer.contents)[..n], k % 2)[..k / 2 + 1])
    {
      ghost var m := Model();
      CallbackFor(dest, len / 2);
      PlayedSounds(m, len / 2, dest[..]);
    }

    method SyncToAudio(on: bool)
      requires Valid()
      modifies this`syncToAudio
      ensures Valid() && Model() == Next(old(Model()), bufferLimit, SetSync(on))
    {
      syncToAudio := on;
    }
  }
}
