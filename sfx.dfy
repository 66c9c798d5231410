/** Sound bookkeeping: the playing instances of each sample (at most ten each), a queue of
    exclusive sounds played one after another, and the music with a pending track that
    replaces it after a short fade. Playback itself is the audio library's; what it reports
    (whether an instance or the stream still plays) and what it hands back (a new instance)
    come in as parameters. */
module Sfx {
  import opened Options

  /** How many instances of one sample are kept playing at once. */
  const MaxInstances: nat := 10

  /** How long, in seconds, the old music fades before the pending one starts. */
  const FadeoutTime: real := 0.1

  /** A playing sample instance, as the audio library hands it out. */
  datatype Instance = Instance(id: int)

  /** Whether a track loops or plays once. */
  datatype Playmode = Loop | Once

  /** A music track: its file, its volume factor and how it plays. */
  datatype Music = Music(name: string, factor: real, mode: Playmode)

  /** The open music stream: the track it plays and the gain it was given. */
  datatype Stream = Stream(music: Music, gain: real)

  // ---------------------------------------------------------------------------
  // Instances

  /** `add_sample_instance` on the map: a new name gets a one-element list; a known one
      grows only while it has fewer than `MaxInstances` instances, else the instance is
      dropped. */
  function AddInstance(m: map<string, seq<Instance>>, name: string, inst: Instance): (r: map<string, seq<Instance>>)
    ensures r.Keys == m.Keys + {name}
    ensures forall other :: other in m && other != name ==> r[other] == m[other]
    ensures name !in m ==> r[name] == [inst]
    ensures name in m && |m[name]| < MaxInstances ==> r[name] == m[name] + [inst]
    ensures name in m && |m[name]| >= MaxInstances ==> r == m
  {
    if name !in m then m[name := [inst]]
    else if |m[name]| < MaxInstances then m[name := m[name] + [inst]]
    else m
  }

  /** No sample has more than `MaxInstances` instances listed. */
  predicate Bounded(m: map<string, seq<Instance>>)
  {
    forall name :: name in m ==> |m[name]| <= MaxInstances
  }

  lemma AddKeepsBounded(m: map<string, seq<Instance>>, name: string, inst: Instance)
    requires Bounded(m)
    ensures Bounded(AddInstance(m, name, inst))
    ensures name in AddInstance(m, name, inst) && |AddInstance(m, name, inst)[name]| >= 1
  {
  }

  /** `Vec::retain`: the instances still playing, in their order. */
  function Retain(s: seq<Instance>, playing: Instance -> bool): (r: seq<Instance>)
    ensures |r| <= |s|
    ensures forall x :: x in r <==> x in s && playing(x)
  {
    if |s| == 0 then []
    else
      var rest := Retain(s[1..], playing);
      assert forall x :: x in s <==> x == s[0] || x in s[1..];
      if playing(s[0]) then [s[0]] + rest else rest
  }

  /** Every list keeps only its playing instances. */
  function RetainAll(m: map<string, seq<Instance>>, playing: Instance -> bool): (r: map<string, seq<Instance>>)
    ensures r.Keys == m.Keys
  {
    map name | name in m :: Retain(m[name], playing)
  }

  lemma RetainKeepsBounded(m: map<string, seq<Instance>>, playing: Instance -> bool)
    requires Bounded(m)
    ensures Bounded(RetainAll(m, playing))
    ensures forall name, x :: name in m && x in RetainAll(m, playing)[name] ==> playing(x) && x in m[name]
  {
  }

  // ---------------------------------------------------------------------------
  // The exclusive queue

  /** `play_exclusive_sound`: the name goes in at the front. */
  function Enqueue(q: seq<string>, name: string): (r: seq<string>)
    ensures |r| == |q| + 1 && r[0] == name && r[1..] == q
  {
    [name] + q
  }

  /** The names requested `names` in order, enqueued one by one. */
  function EnqueueAll(q: seq<string>, names: seq<string>): (r: seq<string>)
    ensures |r| == |q| + |names|
    decreases |names|
  {
    if |names| == 0 then q else EnqueueAll(Enqueue(q, names[0]), names[1..])
  }

  /** The names `k` pops from the back take, first popped first. */
  function DequeueAll(q: seq<string>, k: nat): (r: seq<string>)
    requires k <= |q|
    ensures |r| == k
    decreases k
  {
    if k == 0 then [] else [q[|q| - 1]] + DequeueAll(q[..|q| - 1], k - 1)
  }

  function Reverse(s: seq<string>): (r: seq<string>)
    ensures |r| == |s|
  {
    if |s| == 0 then [] else Reverse(s[1..]) + [s[0]]
  }

  /** Exclusive sounds play in the order they were requested: after what was waiting, in
      that order, come the new requests. */
  lemma {:induction false} ExclusiveFifo(q: seq<string>, names: seq<string>)
    ensures DequeueAll(EnqueueAll(q, names), |q| + |names|) == Reverse(q) + names
    decreases |names|
  {
    if |names| == 0 {
      DequeueReverse(q);
    } else {
      var q' := Enqueue(q, names[0]);
      ExclusiveFifo(q', names[1..]);
      assert Reverse(q') == Reverse(q) + [names[0]] by {
        assert q'[1..] == q;
      }
      assert names == [names[0]] + names[1..];
    }
  }

  /** Popping the whole queue from the back gives it reversed. */
  lemma {:induction false} DequeueReverse(q: seq<string>)
    ensures DequeueAll(q, |q|) == Reverse(q)
    decreases |q|
  {
    if |q| > 0 {
      DequeueReverse(q[..|q| - 1]);
      ReverseSnoc(q[..|q| - 1], q[|q| - 1]);
      assert q[..|q| - 1] + [q[|q| - 1]] == q;
    }
  }

  lemma {:induction false} ReverseSnoc(s: seq<string>, x: string)
    ensures Reverse(s + [x]) == [x] + Reverse(s)
    decreases |s|
  {
    if |s| > 0 {
      ReverseSnoc(s[1..], x);
      assert (s + [x])[1..] == s[1..] + [x];
    }
  }

  // ---------------------------------------------------------------------------
  // Music

  /** The fade factor while the pending music waits: the fraction of the fade time left. */
  function FadeFactor(deadline: real, now: real): (r: real)
  {
    (deadline - now) / FadeoutTime
  }

  /** Over the fade, from the request until the deadline, the factor falls from 1 to 0. */
  lemma FadeInUnit(requested: real, now: real)
    requires requested <= now <= requested + FadeoutTime
    ensures 0.0 <= FadeFactor(requested + FadeoutTime, now) <= 1.0
    ensures now == requested ==> FadeFactor(requested + FadeoutTime, now) == 1.0
    ensures now == requested + FadeoutTime ==> FadeFactor(requested + FadeoutTime, now) == 0.0
  {
  }

  /** The stream `start_music` opens: the track at the volume times its factor. */
  function OpenStream(m: Music, volume: real): (r: Stream)
    ensures r.music == m
  {
    Stream(m, volume * m.factor)
  }

  /** The gain `set_music_volume` gives the stream. */
  function MusicGain(volume: real, m: Music, fade: real): real
  {
    volume * m.factor * fade
  }

  /** An open stream's gain after `set_music_volume`; no stream stays none. */
  function Regain(st: Option<Stream>, volume: real, m: Music, fade: real): (r: Option<Stream>)
    ensures r.Some? <==> st.Some?
    ensures r.Some? ==> r.value.music == st.value.music && r.value.gain == MusicGain(volume, m, fade)
  {
    if st.Some? then Some(st.value.(gain := MusicGain(volume, m, fade))) else None
  }

  /** The music half of the sound state. */
  datatype MusicState = MusicState(music: Music, next: Option<Music>, deadline: real, fade: real, stream: Option<Stream>)

  /** An open stream plays the current track. */
  predicate StreamOfMusic(s: MusicState)
  {
    s.stream.Some? ==> s.stream.value.music == s.music
  }

  /** The music part of `update_sounds`: a pending track past its deadline becomes current,
      opens its stream and resets the fade to 1; before the deadline the fade falls and the
      stream's gain follows it. Then a stream that has stopped (as the audio library reports
      in `streamPlaying`) is opened again unless its track plays once. */
  function UpdateMusic(s: MusicState, volume: real, now: real, streamPlaying: bool): (r: MusicState)
    ensures r.deadline == s.deadline
    ensures s.next.Some? && now > s.deadline ==>
      r.music == s.next.value && r.next == None && r.fade == 1.0 && r.stream == Some(OpenStream(r.music, volume))
    ensures s.next.Some? && now <= s.deadline ==>
      r.music == s.music && r.next == s.next && r.fade == FadeFactor(s.deadline, now) &&
      (r.stream.Some? <==> s.stream.Some?)
    ensures s.next.Some? && now <= s.deadline && (streamPlaying || s.music.mode == Once) ==>
      r.stream == Regain(s.stream, volume, s.music, FadeFactor(s.deadline, now))
    ensures s.next.None? ==> r.music == s.music && r.next == None && r.fade == s.fade
    ensures s.next.None? && (streamPlaying || s.music.mode == Once) ==> r.stream == s.stream
    ensures StreamOfMusic(s) ==> StreamOfMusic(r)
    ensures !(s.next.Some? && now > s.deadline) && s.stream.Some? && !streamPlaying && s.music.mode != Once ==>
      r.stream == Some(OpenStream(s.music, volume))
    ensures r.stream.None? ==> s.stream.None?
  {
    var s1 :=
      if s.next.None? then s
      else if now > s.deadline then MusicState(s.next.value, None, s.deadline, 1.0, Some(OpenStream(s.next.value, volume)))
      else
        var f := FadeFactor(s.deadline, now);
        s.(fade := f, stream := Regain(s.stream, volume, s.music, f));
    if s1.stream.Some? && !streamPlaying && s1.music.mode != Once then s1.(stream := Some(OpenStream(s1.music, volume)))
    else s1
  }

  /** A track asked for at `requested` fades the old one over the fade time and takes over
      at the first update after its deadline. */
  lemma PlayThenUpdate(s: MusicState, m: Music, requested: real, now: real, volume: real, streamPlaying: bool)
    requires s.next == Some(m) && s.deadline == requested + FadeoutTime && requested <= now
    ensures now > s.deadline ==> UpdateMusic(s, volume, now, streamPlaying).music == m
    ensures now <= s.deadline ==>
      UpdateMusic(s, volume, now, streamPlaying).music == s.music &&
      0.0 <= UpdateMusic(s, volume, now, streamPlaying).fade <= 1.0
  {
    if now <= s.deadline {
      FadeInUnit(requested, now);
    }
  }

  /** The lists `update_sounds` keeps: each sample's instances still playing. */
  method RetainInstances(m: map<string, seq<Instance>>, playing: Instance -> bool) returns (r: map<string, seq<Instance>>)
    ensures r == RetainAll(m, playing)
  {
    r := map[];
    var todo := m.Keys;
    while todo != {}
      invariant todo <= m.Keys
      invariant r.Keys == m.Keys - todo
      invariant forall name :: name in r ==> r[name] == Retain(m[name], playing)
      decreases |todo|
    {
      var name :| name in todo;
      r := r[name := Retain(m[name], playing)];
      todo := todo - {name};
    }
    assert r.Keys == RetainAll(m, playing).Keys;
  }

  // ---------------------------------------------------------------------------
  // The sound state

  class Sfx {
    var instances: map<string, seq<Instance>>
    var exclusiveSounds: seq<string>
    var exclusiveInstance: Option<Instance>
    var music: Music
    var nextMusic: Option<Music>
    var timeToNextMusic: real
    var musicFadeFactor: real
    var stream: Option<Stream>
    var sfxVolume: real
    var musicVolume: real

    ghost predicate Valid()
      reads this
    {
      Bounded(instances) && StreamOfMusic(MusicOf())
    }

    /** The music fields, as one value. */
    function MusicOf(): MusicState
      reads this
    {
      MusicState(music, nextMusic, timeToNextMusic, musicFadeFactor, stream)
    }

    /** `Sfx::new` once the audio is up: nothing playing, an empty track looping at factor 1,
        no fade, and the two volumes stored. */
    constructor (sfxVol: real, musicVol: real)
      ensures Valid()
      ensures instances == map[] && exclusiveSounds == [] && exclusiveInstance == None
      ensures music == Music("", 1.0, Loop) && nextMusic == None && timeToNextMusic == 0.0
      ensures musicFadeFactor == 1.0 && stream == None
      ensures sfxVolume == sfxVol && musicVolume == musicVol
    {
      instances := map[];
      exclusiveSounds := [];
      exclusiveInstance := None;
      music := Music("", 1.0, Loop);
      nextMusic := None;
      timeToNextMusic := 0.0;
      musicFadeFactor := 1.0;
      stream := None;
      sfxVolume := sfxVol;
      musicVolume := musicVol;
    }

    /** `add_sample_instance`. */
    method AddSampleInstance(name: string, inst: Instance)
      requires Valid()
      modifies this
      ensures Valid() && instances == AddInstance(old(instances), name, inst)
      ensures exclusiveSounds == old(exclusiveSounds) && exclusiveInstance == old(exclusiveInstance)
      ensures music == old(music) && nextMusic == old(nextMusic) && stream == old(stream)
      ensures timeToNextMusic == old(timeToNextMusic) && musicFadeFactor == old(musicFadeFactor)
      ensures sfxVolume == old(sfxVolume) && musicVolume == old(musicVolume)
    {
      if name !in instances {
        instances := instances[name := [inst]];
      } else if |instances[name]| < MaxInstances {
        instances := instances[name := instances[name] + [inst]];
      }
      AddKeepsBounded(old(instances), name, inst);
    }

    /** `play_exclusive_sound`. */
    method PlayExclusiveSound(name: string)
      modifies this
      ensures exclusiveSounds == Enqueue(old(exclusiveSounds), name)
      ensures instances == old(instances) && exclusiveInstance == old(exclusiveInstance)
      ensures music == old(music) && nextMusic == old(nextMusic) && stream == old(stream)
      ensures timeToNextMusic == old(timeToNextMusic) && musicFadeFactor == old(musicFadeFactor)
      ensures sfxVolume == old(sfxVolume) && musicVolume == old(musicVolume)
    {
      exclusiveSounds := [name] + exclusiveSounds;
    }

    /** `play_music` (`mode` Loop) and `play_music_once` (`mode` Once): the track becomes
        pending, due a fade time from now; the current music plays on. */
    method PlayMusic(name: string, factor: real, mode: Playmode, now: real)
      modifies this
      ensures nextMusic == Some(Music(name, factor, mode)) && timeToNextMusic == now + FadeoutTime
      ensures music == old(music) && stream == old(stream) && musicFadeFactor == old(musicFadeFactor)
      ensures instances == old(instances) && exclusiveSounds == old(exclusiveSounds)
      ensures exclusiveInstance == old(exclusiveInstance)
      ensures sfxVolume == old(sfxVolume) && musicVolume == old(musicVolume)
    {
      nextMusic := Some(Music(name, factor, mode));
      timeToNextMusic := now + FadeoutTime;
    }

    /** `set_sfx_volume`: only stored. */
    method SetSfxVolume(v: real)
      modifies this
      ensures sfxVolume == v && musicVolume == old(musicVolume) && stream == old(stream)
      ensures instances == old(instances) && exclusiveSounds == old(exclusiveSounds)
      ensures exclusiveInstance == old(exclusiveInstance) && music == old(music) && nextMusic == old(nextMusic)
      ensures timeToNextMusic == old(timeToNextMusic) && musicFadeFactor == old(musicFadeFactor)
    {
      sfxVolume := v;
    }

    /** `set_music_volume`: stored, and an open stream's gain becomes the volume times the
        track's factor times the fade. */
    method SetMusicVolume(v: real)
      modifies this
      ensures musicVolume == v && sfxVolume == old(sfxVolume)
      ensures stream == Regain(old(stream), v, music, musicFadeFactor)
      ensures instances == old(instances) && exclusiveSounds == old(exclusiveSounds)
      ensures exclusiveInstance == old(exclusiveInstance) && music == old(music) && nextMusic == old(nextMusic)
      ensures timeToNextMusic == old(timeToNextMusic) && musicFadeFactor == old(musicFadeFactor)
    {
      musicVolume := v;
      if stream.Some? {
        stream := Some(stream.value.(gain := MusicGain(v, music, musicFadeFactor)));
      }
      assert stream == Regain(old(stream), v, music, musicFadeFactor);
    }

    /** `start_music`: a new stream for the current track, at the volume times its factor. */
    method StartMusic()
      modifies this
      ensures stream == Some(OpenStream(music, musicVolume))
      ensures music == old(music) && nextMusic == old(nextMusic) && musicFadeFactor == old(musicFadeFactor)
      ensures instances == old(instances) && exclusiveSounds == old(exclusiveSounds)
      ensures exclusiveInstance == old(exclusiveInstance) && timeToNextMusic == old(timeToNextMusic)
      ensures sfxVolume == old(sfxVolume) && musicVolume == old(musicVolume)
    {
      stream := Some(OpenStream(music, musicVolume));
    }
  
    /** `update_sounds`, once per frame. `playing` is what the audio library reports for a
        sample instance, `streamPlaying` what it reports for the music stream, and
        `newInstance` the instance it hands back when the next exclusive sound starts;
        `started` names that sound. */
    method UpdateSounds(now: real, playing: Instance -> bool, streamPlaying: bool, newInstance: Instance)
      returns (started: Option<string>)
      requires Valid()
      modifies this
      ensures Valid()
      ensures instances == RetainAll(old(instances), playing)
      ensures MusicOf() == UpdateMusic(old(MusicOf()), old(musicVolume), now, streamPlaying)
      ensures sfxVolume == old(sfxVolume) && musicVolume == old(musicVolume)
      ensures old(exclusiveSounds) != [] && (old(exclusiveInstance).None? || !playing(old(exclusiveInstance).value)) ==>
        var q := old(exclusiveSounds);
        started == Some(q[|q| - 1]) && exclusiveSounds == q[..|q| - 1] && exclusiveInstance == Some(newInstance)
      ensures !(old(exclusiveSounds) != [] && (old(exclusiveInstance).None? || !playing(old(exclusiveInstance).value))) ==>
        started == None && exclusiveSounds == old(exclusiveSounds) && exclusiveInstance == old(exclusiveInstance)
    {
      var kept := RetainInstances(instances, playing);
      RetainKeepsBounded(instances, playing);
      instances := kept;
      UpdateMusicFields(now, streamPlaying);
      started := NextExclusive(playing, newInstance);
    }

    /** The music part of `update_sounds`, on the fields. */
    method UpdateMusicFields(now: real, streamPlaying: bool)
      requires StreamOfMusic(MusicOf())
      modifies this
      ensures MusicOf() == UpdateMusic(old(MusicOf()), musicVolume, now, streamPlaying)
      ensures musicVolume == old(musicVolume) && sfxVolume == old(sfxVolume) && instances == old(instances)
      ensures exclusiveSounds == old(exclusiveSounds) && exclusiveInstance == old(exclusiveInstance)
    {
      if nextMusic.Some? {
        if now > timeToNextMusic {
          music := nextMusic.value;
          nextMusic := None;
          StartMusic();
          musicFadeFactor := 1.0;
        } else {
          musicFadeFactor := FadeFactor(timeToNextMusic, now);
          SetMusicVolume(musicVolume);
        }
      }
      if stream.Some? && !streamPlaying && music.mode != Once {
        StartMusic();
      }
    }

    /** The exclusive part of `update_sounds`: with sounds waiting and no exclusive instance
        still playing, the oldest request starts. */
    method NextExclusive(playing: Instance -> bool, newInstance: Instance) returns (started: Option<string>)
      modifies this
      ensures old(exclusiveSounds) != [] && (old(exclusiveInstance).None? || !playing(old(exclusiveInstance).value)) ==>
        var q := old(exclusiveSounds);
        started == Some(q[|q| - 1]) && exclusiveSounds == q[..|q| - 1] && exclusiveInstance == Some(newInstance)
      ensures !(old(exclusiveSounds) != [] && (old(exclusiveInstance).None? || !playing(old(exclusiveInstance).value))) ==>
        started == None && exclusiveSounds == old(exclusiveSounds) && exclusiveInstance == old(exclusiveInstance)
      ensures instances == old(instances) && MusicOf() == old(MusicOf())
      ensures musicVolume == old(musicVolume) && sfxVolume == old(sfxVolume)
    {
      started := None;
      if exclusiveSounds != [] {
        var playNext := true;
        if exclusiveInstance.Some? {
          playNext := !playing(exclusiveInstance.value);
        }
        if playNext {
          var name := exclusiveSounds[|exclusiveSounds| - 1];
          exclusiveSounds := exclusiveSounds[..|exclusiveSounds| - 1];
          exclusiveInstance := Some(newInstance);
          started := Some(name);
        }
      }
    }
  }
}
