/** The film assembly of trailer/encode_hero.py: a list of beats compiled into one labelled
    ffmpeg filter graph.

    The graph gets a meaning of its own (streams as functions from exact time to frames), and the
    compiled graph is proved to mean the intended timeline. */
module EncodeHero {
  import opened Outcomes

  // ------------------------------------------------------------------ the edit list and the graph

  datatype Beat = Beat(take: string, start: real, end: real, speed: real, crop: Option<string>)

  /** The short cross-dissolve used everywhere except before a hard cut. */
  const DISSOLVE := 0.4

  /** One filter of a per-beat chain. */
  datatype Op =
    | Trim(start: real, end: real)
    | Rebase
    | Crop(spec: string)
    | Retime(speed: real)
    | FixedRate
    | Scale
    | Pad
    | SquarePixels

  /** The pads of the graph: `[b3]`, `[x3]` and `[out]`. */
  datatype Label = BeatPad(index: nat) | JoinPad(index: nat) | OutPad

  datatype Step =
    | Cut(source: nat, chain: seq<Op>, out: Label)
    | Xfade(first: Label, second: Label, duration: real, offset: real, out: Label)
    | Concat(first: Label, second: Label, out: Label)
    | Format(input: Label, out: Label)

  datatype Graph = Graph(steps: seq<Step>, output: Label, duration: real)

  /** The exceptions `build_filter` lets through: a take that is not an input, a division by a zero
      speed, and an empty list of lengths. */
  datatype Fault = UnknownTake | ZeroSpeed | NoBeats

  // ------------------------------------------------------------------ what build_filter emits

  function IndexOf(inputs: seq<string>, take: string): (i: nat)
    requires take in inputs
    ensures i < |inputs| && inputs[i] == take
  {
    if inputs[0] == take then 0 else 1 + IndexOf(inputs[1..], take)
  }

  /** A take may be listed twice; its first place counts. */
  lemma {:induction false} IndexOfIsFirst(inputs: seq<string>, take: string)
    requires take in inputs
    ensures take !in inputs[..IndexOf(inputs, take)]
  {
    if inputs[0] != take {
      IndexOfIsFirst(inputs[1..], take);
      assert inputs == [inputs[0]] + inputs[1..];
    }
  }

  function Length(beat: Beat): real
    requires beat.speed != 0.0
  {
    (beat.end - beat.start) / beat.speed
  }

  function Chain(beat: Beat): seq<Op> {
    [Trim(beat.start, beat.end), Rebase]
    + (if beat.crop.Some? && beat.crop.value != "" then [Crop(beat.crop.value)] else [])
    + [Retime(beat.speed), FixedRate, Scale, Pad, SquarePixels]
  }

  /** Every take is an input and no beat stands still: what `build_filter` needs of its arguments. */
  predicate Buildable(beats: seq<Beat>, inputs: seq<string>) {
    && (forall i | 0 <= i < |beats| :: beats[i].take in inputs)
    && Moving(beats)
  }

  predicate Moving(beats: seq<Beat>) {
    forall i | 0 <= i < |beats| :: beats[i].speed != 0.0
  }

  /** The overlap of beat `index` with the beat before it. */
  function Overlap(hardCuts: set<int>, index: nat): real {
    if index == 0 || index in hardCuts then 0.0 else DISSOLVE
  }

  function Cuts(beats: seq<Beat>, inputs: seq<string>, n: nat): (steps: seq<Step>)
    requires n <= |beats| && forall i | 0 <= i < n :: beats[i].take in inputs
  {
    if n == 0 then []
    else Cuts(beats, inputs, n - 1)
         + [Cut(IndexOf(inputs, beats[n - 1].take), Chain(beats[n - 1]), BeatPad(n - 1))]
  }

  /** The running offset after `n` beats have been joined. */
  function Offset(beats: seq<Beat>, hardCuts: set<int>, n: nat): real
    requires n <= |beats| && Moving(beats)
  {
    if n == 0 then 0.0
    else Offset(beats, hardCuts, n - 1) + Length(beats[n - 1]) - Overlap(hardCuts, n - 1)
  }

  function Current(n: nat): Label
    requires n > 0
  {
    if n == 1 then BeatPad(0) else JoinPad(n - 1)
  }

  function Join(beats: seq<Beat>, hardCuts: set<int>, index: nat): Step
    requires 0 < index < |beats| && Moving(beats)
  {
    var overlap := Overlap(hardCuts, index);
    if overlap != 0.0 then
      Xfade(Current(index), BeatPad(index), overlap, Offset(beats, hardCuts, index) - overlap, JoinPad(index))
    else
      Concat(Current(index), BeatPad(index), JoinPad(index))
  }

  function Joins(beats: seq<Beat>, hardCuts: set<int>, n: nat): seq<Step>
    requires 0 < n <= |beats| && Moving(beats)
  {
    if n == 1 then [] else Joins(beats, hardCuts, n - 1) + [Join(beats, hardCuts, n - 1)]
  }

  function Compiled(beats: seq<Beat>, inputs: seq<string>, hardCuts: set<int>): Graph
    requires beats != [] && Buildable(beats, inputs)
  {
    Graph(Cuts(beats, inputs, |beats|) + Joins(beats, hardCuts, |beats|)
          + [Format(Current(|beats|), OutPad)],
          OutPad, Offset(beats, hardCuts, |beats|))
  }

  /** The first beat that cannot be built decides which exception is raised. */
  lemma {:induction false} FirstFault(beats: seq<Beat>, inputs: seq<string>, index: nat)
    requires index < |beats| && Buildable(beats[..index], inputs)
    requires beats[index].take !in inputs || beats[index].speed == 0.0
    ensures forall i | 0 <= i < |beats| && (beats[i].take !in inputs || beats[i].speed == 0.0)
                       && Buildable(beats[..i], inputs) :: i == index
  {
    assert forall i | 0 <= i < index :: beats[..index][i] == beats[i];
    assert forall i | index < i < |beats| :: beats[..i][index] == beats[index];
  }

  /** The filters that each beat goes through, in order, and the input and the pad at their ends. An empty crop is
      none. */
  lemma {:induction false} CutIs(beats: seq<Beat>, inputs: seq<string>, hardCuts: set<int>, i: nat)
    requires beats != [] && Buildable(beats, inputs) && i < |beats|
    ensures i < |Compiled(beats, inputs, hardCuts).steps|
    ensures var beat, step := beats[i], Compiled(beats, inputs, hardCuts).steps[i];
      && step.Cut? && step.out == BeatPad(i)
      && step.source < |inputs| && inputs[step.source] == beat.take && beat.take !in inputs[..step.source]
      && step.chain == if beat.crop == None || beat.crop == Some("")
                       then [Trim(beat.start, beat.end), Rebase, Retime(beat.speed), FixedRate, Scale, Pad,
                             SquarePixels]
                       else [Trim(beat.start, beat.end), Rebase, Crop(beat.crop.value), Retime(beat.speed), FixedRate,
                             Scale, Pad, SquarePixels]
  {
    IndexOfIsFirst(inputs, beats[i].take);
    CutAt(beats, inputs, |beats|, i);
    ChainIs(beats[i]);
  }

  lemma {:induction false} CutAt(beats: seq<Beat>, inputs: seq<string>, n: nat, i: nat)
    requires i < n <= |beats| && forall j | 0 <= j < |beats| :: beats[j].take in inputs
    ensures |Cuts(beats, inputs, n)| == n
    ensures Cuts(beats, inputs, n)[i] == Cut(IndexOf(inputs, beats[i].take), Chain(beats[i]), BeatPad(i))
  {
    hide Chain, IndexOf;
    if i < n - 1 {
      CutAt(beats, inputs, n - 1, i);
    } else if n > 1 {
      CutAt(beats, inputs, n - 1, 0);
    }
  }

  lemma {:induction false} ChainIs(beat: Beat)
    ensures Chain(beat)
         == if beat.crop == None || beat.crop == Some("")
            then [Trim(beat.start, beat.end), Rebase, Retime(beat.speed), FixedRate, Scale, Pad, SquarePixels]
            else [Trim(beat.start, beat.end), Rebase, Crop(beat.crop.value), Retime(beat.speed), FixedRate, Scale, Pad,
                  SquarePixels]
  {
  }

  method BuildFilter(beats: seq<Beat>, inputs: seq<string>, hardCuts: set<int>)
    returns (r: Result<Graph, Fault>)
    ensures r.Ok? <==> beats != [] && Buildable(beats, inputs)
    ensures r.Ok? ==> r.value == Compiled(beats, inputs, hardCuts)
    ensures r == Err(NoBeats) <==> beats == []
    ensures r == Err(UnknownTake) <==> exists i | 0 <= i < |beats| ::
                beats[i].take !in inputs && Buildable(beats[..i], inputs)
    ensures r == Err(ZeroSpeed) <==> exists i | 0 <= i < |beats| ::
                beats[i].speed == 0.0 && beats[i].take in inputs && Buildable(beats[..i], inputs)
  {
    var steps: seq<Step> := [];
    var lengths: seq<real> := [];
    var index := 0;
    while index < |beats|
      invariant 0 <= index <= |beats| && |lengths| == index
      invariant forall i | 0 <= i < index :: beats[i].take in inputs && beats[i].speed != 0.0
      invariant forall i | 0 <= i < index :: lengths[i] == Length(beats[i])
      invariant steps == Cuts(beats, inputs, index)
    {
      var beat := beats[index];
      if beat.take !in inputs {
        FirstFault(beats, inputs, index);
        return Err(UnknownTake);
      }
      if beat.speed == 0.0 {
        FirstFault(beats, inputs, index);
        return Err(ZeroSpeed);
      }
      steps := steps + [Cut(IndexOf(inputs, beat.take), Chain(beat), BeatPad(index))];
      lengths := lengths + [(beat.end - beat.start) / beat.speed];
      index := index + 1;
    }
    if beats == [] {
      return Err(NoBeats);
    }
    ghost var cuts := steps;
    var current := BeatPad(0);
    var offset := lengths[0];
    index := 1;
    assert Offset(beats, hardCuts, 0) == 0.0;
    while index < |beats|
      invariant 1 <= index <= |beats| == |lengths|
      invariant current == Current(index) && offset == Offset(beats, hardCuts, index)
      invariant steps == cuts + Joins(beats, hardCuts, index)
    {
      var overlap := if index in hardCuts then 0.0 else DISSOLVE;
      var join := JoinPad(index);
      if overlap != 0.0 {
        steps := steps + [Xfade(current, BeatPad(index), overlap, offset - overlap, join)];
        offset := offset + lengths[index] - overlap;
      } else {
        steps := steps + [Concat(current, BeatPad(index), join)];
        offset := offset + lengths[index];
      }
      current := join;
      index := index + 1;
    }
    steps := steps + [Format(current, OutPad)];
    r := Ok(Graph(steps, OutPad, offset));
  }

  // ------------------------------------------------------------------ what a graph means

  /** A frame, as the footage it shows and what was done to it. */
  datatype Frame =
    | Raw(take: string, time: real)
    | Cropped(spec: string, inner: Frame)
    | Scaled(inner: Frame)
    | Padded(inner: Frame)
    | Blend(under: Frame, over: Frame, progress: real)

  /** A stream: the frames it shows between two timestamps. */
  datatype Stream = Stream(from: real, until: real, at: real -> Frame)

  function Min(a: real, b: real): real { if a <= b then a else b }

  function Max(a: real, b: real): real { if a <= b then b else a }

  ghost function Take(name: string, available: real): Stream {
    Stream(0.0, available, t => Raw(name, t))
  }

  /** One filter. `trim` passes on what lies between its bounds, if anything does; `fps` and `setsar`
      change neither content nor timing in exact time. */
  ghost function Apply(op: Op, s: Stream): Stream {
    match op
    case Trim(start, end) => Stream(Max(s.from, start), Max(Max(s.from, start), Min(s.until, end)), s.at)
    case Rebase => Stream(0.0, s.until - s.from, t => s.at(t + s.from))
    case Crop(spec) => s.(at := t => Cropped(spec, s.at(t)))
    case Retime(speed) =>
      if speed == 0.0 then s else Stream(s.from / speed, s.until / speed, t => s.at(t * speed))
    case Scale => s.(at := t => Scaled(s.at(t)))
    case Pad => s.(at := t => Padded(s.at(t)))
    case FixedRate => s
    case SquarePixels => s
  }

  ghost function ApplyAll(ops: seq<Op>, s: Stream): Stream {
    if ops == [] then s else ApplyAll(ops[1..], Apply(ops[0], s))
  }

  /** `xfade=transition=fade`: the first input alone up to the offset, both for the duration, then the
      second alone; the second input's clock starts at the offset. */
  ghost function Fade(a: Stream, b: Stream, duration: real, offset: real): Stream
    requires duration != 0.0
  {
    Stream(0.0, offset + b.until,
           t => if t < offset then a.at(t)
           else if t < offset + duration then Blend(a.at(t), b.at(t - offset), (t - offset) / duration)
           else b.at(t - offset))
  }

  ghost function Splice(a: Stream, b: Stream): Stream {
    Stream(0.0, a.until + b.until, t => if t < a.until then a.at(t) else b.at(t - a.until))
  }

  /** The state of a graph being wired: the pads that carry a stream nobody has consumed yet, and
      every pad ever defined. */
  datatype Wiring = Wiring(live: map<Label, Stream>, defined: set<Label>)

  /** Running one step. It is refused when an input pad is not live (undefined, or already consumed)
      or when the output pad has been defined before. */
  ghost function Exec(step: Step, takes: seq<Stream>, w: Wiring): Option<Wiring> {
    if step.out in w.defined then None else
    match step
    case Cut(source, chain, out) =>
      if source >= |takes| then None
      else Some(Wiring(w.live[out := ApplyAll(chain, takes[source])], w.defined + {out}))
    case Xfade(a, b, duration, offset, out) =>
      if a == b || a !in w.live || b !in w.live || duration == 0.0 then None
      else Some(Wiring((w.live - {a, b})[out := Fade(w.live[a], w.live[b], duration, offset)], w.defined + {out}))
    case Concat(a, b, out) =>
      if a == b || a !in w.live || b !in w.live then None
      else Some(Wiring((w.live - {a, b})[out := Splice(w.live[a], w.live[b])], w.defined + {out}))
    case Format(a, out) =>
      if a !in w.live then None
      else Some(Wiring((w.live - {a})[out := w.live[a]], w.defined + {out}))
  }

  ghost function Run(steps: seq<Step>, takes: seq<Stream>, w: Wiring): Option<Wiring> {
    if steps == [] then Some(w)
    else match Run(steps[..|steps| - 1], takes, w)
      case None => None
      case Some(w') => Exec(steps[|steps| - 1], takes, w')
  }

  const UNWIRED := Wiring(map[], {})

  // ------------------------------------------------------------------ the intended timeline

  /** When beat `i` appears. */
  function Start(beats: seq<Beat>, hardCuts: set<int>, i: nat): real
    requires i <= |beats| && Moving(beats)
  {
    Offset(beats, hardCuts, i) - Overlap(hardCuts, i)
  }

  /** What a beat shows, `t` seconds after it appears. */
  function Content(beat: Beat, t: real): Frame {
    var raw := Raw(beat.take, t * beat.speed + beat.start);
    Padded(Scaled(if beat.crop.Some? && beat.crop.value != "" then Cropped(beat.crop.value, raw) else raw))
  }

  /** The last of the first `n` beats that has appeared by time `t`. */
  ghost function LastStarted(beats: seq<Beat>, hardCuts: set<int>, n: nat, t: real): (i: nat)
    requires 0 < n <= |beats| && Moving(beats)
    ensures i < n && (i == 0 || Start(beats, hardCuts, i) <= t)
    ensures forall j | i < j < n :: t < Start(beats, hardCuts, j)
  {
    if n == 1 || Start(beats, hardCuts, n - 1) <= t then n - 1
    else LastStarted(beats, hardCuts, n - 1, t)
  }

  /** The film of the first `n` beats at time `t`: the beat that appeared last, dissolving over the
      one before it while their overlap lasts. */
  ghost function Timeline(beats: seq<Beat>, hardCuts: set<int>, n: nat, t: real): Frame
    requires 0 < n <= |beats| && Moving(beats) && t >= 0.0
  {
    var i := LastStarted(beats, hardCuts, n, t);
    var since := t - Start(beats, hardCuts, i);
    if since < Overlap(hardCuts, i) then
      Blend(Content(beats[i - 1], t - Start(beats, hardCuts, i - 1)), Content(beats[i], since),
            since / Overlap(hardCuts, i))
    else
      Content(beats[i], since)
  }

  /** A beat that exists in its take and runs forwards. */
  predicate Playable(beat: Beat, available: real) {
    0.0 <= beat.start <= beat.end <= available && beat.speed > 0.0
  }

  /** A beat lasts at least as long as the overlaps on its two sides. */
  predicate HasRoom(beats: seq<Beat>, hardCuts: set<int>, i: nat)
    requires i < |beats| && Moving(beats)
  {
    Overlap(hardCuts, i) + Overlap(hardCuts, i + 1) <= Length(beats[i])
  }

  /** Beat `k` follows a hard cut, or is dissolved over a beat that has room. */
  predicate RoomBefore(beats: seq<Beat>, hardCuts: set<int>, k: nat)
    requires 0 < k < |beats| && Moving(beats)
  {
    k in hardCuts || HasRoom(beats, hardCuts, k - 1)
  }

  /** Every beat that is dissolved into the next has room, but for the first. */
  predicate RoomForOverlaps(beats: seq<Beat>, hardCuts: set<int>)
    requires Moving(beats)
  {
    forall k | 1 < k < |beats| :: RoomBefore(beats, hardCuts, k)
  }

  // ------------------------------------------------------------------ the compiled graph means the film

  ghost predicate ShowsBeat(s: Stream, beat: Beat)
    requires beat.speed != 0.0
  {
    s.from == 0.0 && s.until == Length(beat) && forall t :: s.at(t) == Content(beat, t)
  }

  /** What the joins make of the first `n` beats: each one, once it appears, dissolves over all that is shown before
      it. */
  function Film(beats: seq<Beat>, hardCuts: set<int>, n: nat, t: real): Frame
    requires 0 < n <= |beats| && Moving(beats)
  {
    if n == 1 then Content(beats[0], t)
    else
      var since := t - Start(beats, hardCuts, n - 1);
      if since < 0.0 then Film(beats, hardCuts, n - 1, t)
      else if since < Overlap(hardCuts, n - 1) then
        Blend(Film(beats, hardCuts, n - 1, t), Content(beats[n - 1], since), since / Overlap(hardCuts, n - 1))
      else Content(beats[n - 1], since)
  }

  ghost predicate ShowsFilm(s: Stream, beats: seq<Beat>, hardCuts: set<int>, n: nat)
    requires 0 < n <= |beats| && Moving(beats)
  {
    && s.from == 0.0
    && s.until == Offset(beats, hardCuts, n)
    && forall t | 0.0 <= t < s.until :: s.at(t) == Film(beats, hardCuts, n, t)
  }

  lemma {:induction false} ApplyOne(op: Op, rest: seq<Op>, s: Stream)
    ensures ApplyAll([op] + rest, s) == ApplyAll(rest, Apply(op, s))
  {
    assert ([op] + rest)[1..] == rest;
  }

  ghost function Cropping(beat: Beat, s: Stream): Stream {
    if beat.crop.Some? && beat.crop.value != "" then Apply(Crop(beat.crop.value), s) else s
  }

  /** The chain, filter by filter. */
  lemma {:induction false} ChainUnrolled(beat: Beat, s: Stream)
    ensures ApplyAll(Chain(beat), s)
         == Apply(Pad, Apply(Scale, Apply(Retime(beat.speed),
              Cropping(beat, Apply(Rebase, Apply(Trim(beat.start, beat.end), s))))))
  {
    var crop := CropOps(beat);
    var rest := [Retime(beat.speed)] + ([FixedRate] + ([Scale] + ([Pad] + ([SquarePixels] + []))));
    ChainParts(beat);
    hide Chain, CropOps, Cropping;
    var cut := Apply(Rebase, Apply(Trim(beat.start, beat.end), s));
    ApplyOne(Trim(beat.start, beat.end), [Rebase] + (crop + rest), s);
    ApplyOne(Rebase, crop + rest, Apply(Trim(beat.start, beat.end), s));
    CropApplies(beat, rest, cut);
    RestApplies(beat.speed, Cropping(beat, cut));
  }

  function CropOps(beat: Beat): seq<Op> {
    if beat.crop.Some? && beat.crop.value != "" then [Crop(beat.crop.value)] else []
  }

  lemma {:induction false} ChainParts(beat: Beat)
    ensures Chain(beat)
         == [Trim(beat.start, beat.end)] + ([Rebase] + (CropOps(beat)
            + ([Retime(beat.speed)] + ([FixedRate] + ([Scale] + ([Pad] + ([SquarePixels] + [])))))))
  {
  }

  lemma {:induction false} CropApplies(beat: Beat, rest: seq<Op>, s: Stream)
    ensures ApplyAll(CropOps(beat) + rest, s) == ApplyAll(rest, Cropping(beat, s))
  {
    if CropOps(beat) == [] {
      assert CropOps(beat) + rest == rest;
    } else {
      ApplyOne(CropOps(beat)[0], rest, s);
    }
  }

  lemma {:induction false} RestApplies(speed: real, s: Stream)
    ensures ApplyAll([Retime(speed)] + ([FixedRate] + ([Scale] + ([Pad] + ([SquarePixels] + [])))), s)
         == Apply(Pad, Apply(Scale, Apply(Retime(speed), s)))
  {
    var retimed := Apply(Retime(speed), s);
    ApplyOne(Retime(speed), [FixedRate] + ([Scale] + ([Pad] + ([SquarePixels] + []))), s);
    ApplyOne(FixedRate, [Scale] + ([Pad] + ([SquarePixels] + [])), retimed);
    ApplyOne(Scale, [Pad] + ([SquarePixels] + []), retimed);
    ApplyOne(Pad, [SquarePixels] + [], Apply(Scale, retimed));
    ApplyOne(SquarePixels, [], Apply(Pad, Apply(Scale, retimed)));
  }

  lemma {:induction false} ChainMeans(beat: Beat, available: real)
    requires Playable(beat, available)
    ensures ShowsBeat(ApplyAll(Chain(beat), Take(beat.take, available)), beat)
  {
    var raw := Take(beat.take, available);
    ChainUnrolled(beat, raw);
    var cut := Apply(Rebase, Apply(Trim(beat.start, beat.end), raw));
    assert cut.from == 0.0 && cut.until == beat.end - beat.start;
    forall t
      ensures cut.at(t) == Raw(beat.take, t + beat.start)
    {
    }
    CutMeans(beat, cut);
  }

  lemma {:induction false} CutMeans(beat: Beat, cut: Stream)
    requires beat.speed > 0.0 && cut.from == 0.0 && cut.until == beat.end - beat.start
    requires forall t :: cut.at(t) == Raw(beat.take, t + beat.start)
    ensures ShowsBeat(Apply(Pad, Apply(Scale, Apply(Retime(beat.speed), Cropping(beat, cut)))), beat)
  {
    var framed := Cropping(beat, cut);
    var retimed := Apply(Retime(beat.speed), framed);
    var scaled := Apply(Scale, retimed);
    var padded := Apply(Pad, scaled);
    forall t
      ensures padded.at(t) == Content(beat, t)
    {
      var source := t * beat.speed;
      assert cut.at(source) == Raw(beat.take, source + beat.start);
      assert framed.at(source)
          == if beat.crop.Some? && beat.crop.value != "" then Cropped(beat.crop.value, cut.at(source))
             else cut.at(source);
      assert retimed.at(t) == framed.at(source);
      assert scaled.at(t) == Scaled(retimed.at(t));
      assert padded.at(t) == Padded(scaled.at(t));
    }
  }

  /** The takes, as the inputs of the graph. */
  ghost predicate Supplies(takes: seq<Stream>, beats: seq<Beat>, inputs: seq<string>, available: map<string, real>) {
    && |takes| == |inputs|
    && (forall k | 0 <= k < |inputs| :: inputs[k] in available && takes[k] == Take(inputs[k], available[inputs[k]]))
    && (forall i | 0 <= i < |beats| :: beats[i].take in inputs && Playable(beats[i], available[beats[i].take]))
  }

  lemma {:induction false} RunAppend(a: seq<Step>, step: Step, takes: seq<Stream>, w: Wiring)
    ensures Run(a + [step], takes, w)
         == match Run(a, takes, w) case None => None case Some(w') => Exec(step, takes, w')
  {
    assert (a + [step])[..|a + [step]| - 1] == a;
  }

  /** After the per-beat chains of the first `n` beats: one live pad per beat, showing that beat. */
  ghost predicate CutsWired(w: Wiring, beats: seq<Beat>, n: nat)
    requires n <= |beats| && Moving(beats)
  {
    && (forall pad :: pad in w.defined <==> pad.BeatPad? && pad.index < n)
    && w.live.Keys == w.defined
    && forall i: nat | i < n :: ShowsBeat(w.live[BeatPad(i)], beats[i])
  }

  /** After the first `n` of `total` beats are joined: the pads defined so far, and the live ones -
      the joined stream and the beats still to come. */
  ghost predicate JoinPadsWired(w: Wiring, total: nat, n: nat)
    requires 0 < n <= total
  {
    && (forall pad :: pad in w.defined <==> (pad.BeatPad? && pad.index < total) || (pad.JoinPad? && 0 < pad.index < n))
    && (forall pad :: pad in w.live <==> pad == Current(n) || (pad.BeatPad? && n <= pad.index < total))
  }

  ghost predicate JoinsWired(w: Wiring, beats: seq<Beat>, hardCuts: set<int>, n: nat)
    requires 0 < n <= |beats| && Moving(beats)
  {
    && JoinPadsWired(w, |beats|, n)
    && (forall i: nat | n <= i < |beats| :: ShowsBeat(w.live[BeatPad(i)], beats[i]))
    && ShowsFilm(w.live[Current(n)], beats, hardCuts, n)
  }

  /** The chain emitted for a beat, run on the input it names, shows that beat. */
  ghost predicate Cuttable(beat: Beat, inputs: seq<string>, takes: seq<Stream>) {
    && beat.take in inputs && beat.speed != 0.0
    && IndexOf(inputs, beat.take) < |takes|
    && ShowsBeat(ApplyAll(Chain(beat), takes[IndexOf(inputs, beat.take)]), beat)
  }

  lemma {:induction false} SuppliedBeatIsCuttable(beats: seq<Beat>, inputs: seq<string>, available: map<string, real>,
                               takes: seq<Stream>, i: nat)
    requires Supplies(takes, beats, inputs, available) && i < |beats|
    ensures Cuttable(beats[i], inputs, takes)
  {
    ChainMeans(beats[i], available[beats[i].take]);
  }

  lemma {:induction false} ExecCut(beats: seq<Beat>, inputs: seq<string>, takes: seq<Stream>, n: nat, w: Wiring)
    requires 0 < n <= |beats| && Moving(beats) && Cuttable(beats[n - 1], inputs, takes)
    requires CutsWired(w, beats, n - 1)
    ensures var w' := Exec(Cut(IndexOf(inputs, beats[n - 1].take), Chain(beats[n - 1]), BeatPad(n - 1)), takes, w);
            w'.Some? && CutsWired(w'.value, beats, n)
  {
  }

  /** The steps run, and leave the first `n` beats wired. */
  ghost predicate RunsToCuts(steps: seq<Step>, takes: seq<Stream>, beats: seq<Beat>, n: nat)
    requires n <= |beats| && Moving(beats)
  {
    var w := Run(steps, takes, UNWIRED);
    w.Some? && CutsWired(w.value, beats, n)
  }

  lemma {:induction false} RunCuts(beats: seq<Beat>, inputs: seq<string>, takes: seq<Stream>, n: nat)
    requires n <= |beats| && Buildable(beats, inputs)
    requires forall i | 0 <= i < |beats| :: Cuttable(beats[i], inputs, takes)
    ensures RunsToCuts(Cuts(beats, inputs, n), takes, beats, n)
  {
    hide RunsToCuts, Cuttable, Cuts, Chain, IndexOf;
    if n == 0 {
      NoCuts(beats, inputs, takes);
    } else {
      RunCuts(beats, inputs, takes, n - 1);
      CutsGrow(beats, inputs, n);
      AppendCut(beats, inputs, takes, Cuts(beats, inputs, n - 1), n);
    }
  }

  lemma {:induction false} NoCuts(beats: seq<Beat>, inputs: seq<string>, takes: seq<Stream>)
    requires Moving(beats)
    ensures Cuts(beats, inputs, 0) == [] && RunsToCuts([], takes, beats, 0)
  {
  }

  lemma {:induction false} CutsGrow(beats: seq<Beat>, inputs: seq<string>, n: nat)
    requires 0 < n <= |beats| && forall i | 0 <= i < n :: beats[i].take in inputs
    ensures Cuts(beats, inputs, n)
         == Cuts(beats, inputs, n - 1) + [Cut(IndexOf(inputs, beats[n - 1].take), Chain(beats[n - 1]), BeatPad(n - 1))]
  {
  }

  lemma {:induction false} AppendCut(beats: seq<Beat>, inputs: seq<string>, takes: seq<Stream>, steps: seq<Step>,
                                   n: nat)
    requires 0 < n <= |beats| && Moving(beats) && beats[n - 1].take in inputs && Cuttable(beats[n - 1], inputs, takes)
    requires RunsToCuts(steps, takes, beats, n - 1)
    ensures RunsToCuts(steps + [Cut(IndexOf(inputs, beats[n - 1].take), Chain(beats[n - 1]), BeatPad(n - 1))],
                       takes, beats, n)
  {
    hide Run, CutsWired, Exec, ShowsBeat, Chain, IndexOf, Cuttable;
    var cut := Cut(IndexOf(inputs, beats[n - 1].take), Chain(beats[n - 1]), BeatPad(n - 1));
    RunAppend(steps, cut, takes, UNWIRED);
    ExecCut(beats, inputs, takes, n, Run(steps, takes, UNWIRED).value);
  }

  ghost function Joined(a: Stream, b: Stream, overlap: real, offset: real): Stream {
    if overlap != 0.0 then Fade(a, b, overlap, offset - overlap) else Splice(a, b)
  }

  /** Joining the next beat shows the film with that beat, at every time. */
  lemma {:induction false} JoinAt(beats: seq<Beat>, hardCuts: set<int>, n: nat, a: Stream, b: Stream, t: real)
    requires 0 < n < |beats| && Moving(beats)
    requires ShowsFilm(a, beats, hardCuts, n) && ShowsBeat(b, beats[n])
    requires 0.0 <= t < Offset(beats, hardCuts, n + 1)
    ensures Joined(a, b, Overlap(hardCuts, n), Offset(beats, hardCuts, n)).at(t) == Film(beats, hardCuts, n + 1, t)
  {
    var start := Start(beats, hardCuts, n);
    assert t < Offset(beats, hardCuts, n) ==> a.at(t) == Film(beats, hardCuts, n, t);
    assert b.at(t - start) == Content(beats[n], t - start);
  }

  lemma {:induction false} JoinKeepsFilm(beats: seq<Beat>, hardCuts: set<int>, n: nat, a: Stream, b: Stream)
    requires 0 < n < |beats| && Moving(beats)
    requires ShowsFilm(a, beats, hardCuts, n) && ShowsBeat(b, beats[n])
    ensures ShowsFilm(Joined(a, b, Overlap(hardCuts, n), Offset(beats, hardCuts, n)), beats, hardCuts, n + 1)
  {
    forall t | 0.0 <= t < Offset(beats, hardCuts, n + 1)
      ensures Joined(a, b, Overlap(hardCuts, n), Offset(beats, hardCuts, n)).at(t)
           == Film(beats, hardCuts, n + 1, t)
    {
      JoinAt(beats, hardCuts, n, a, b, t);
    }
  }

  lemma {:induction false} ExecJoinPads(beats: seq<Beat>, takes: seq<Stream>, hardCuts: set<int>, n: nat, w: Wiring)
    requires 1 < n <= |beats| && Moving(beats) && JoinPadsWired(w, |beats|, n - 1)
    ensures var a, b := Current(n - 1), BeatPad(n - 1);
            var joined := Joined(w.live[a], w.live[b], Overlap(hardCuts, n - 1), Offset(beats, hardCuts, n - 1));
            var w' := Wiring((w.live - {a, b})[JoinPad(n - 1) := joined], w.defined + {JoinPad(n - 1)});
            Exec(Join(beats, hardCuts, n - 1), takes, w) == Some(w') && JoinPadsWired(w', |beats|, n)
  {
  }

  lemma {:induction false} ExecJoin(beats: seq<Beat>, takes: seq<Stream>, hardCuts: set<int>, n: nat, w: Wiring)
    requires 1 < n <= |beats| && Moving(beats)
    requires JoinsWired(w, beats, hardCuts, n - 1)
    ensures var w' := Exec(Join(beats, hardCuts, n - 1), takes, w);
            w'.Some? && JoinsWired(w'.value, beats, hardCuts, n)
  {
    hide Exec, Join, ShowsFilm, ShowsBeat, Joined, Offset;
    ExecJoinPads(beats, takes, hardCuts, n, w);
    JoinKeepsFilm(beats, hardCuts, n - 1, w.live[Current(n - 1)], w.live[BeatPad(n - 1)]);
  }

  /** Before any join, the joined stream is the first beat. */
  lemma {:induction false} CutsAreJoinedOnce(beats: seq<Beat>, hardCuts: set<int>, w: Wiring)
    requires beats != [] && Moving(beats) && CutsWired(w, beats, |beats|)
    ensures JoinsWired(w, beats, hardCuts, 1)
  {
    assert BeatPad(0) in w.defined;
    FirstBeatShowsFilm(beats, hardCuts, w.live[BeatPad(0)]);
  }

  /** The steps run, and leave the first `n` beats joined. */
  ghost predicate RunsToJoins(steps: seq<Step>, takes: seq<Stream>, beats: seq<Beat>, hardCuts: set<int>, n: nat)
    requires 0 < n <= |beats| && Moving(beats)
  {
    var w := Run(steps, takes, UNWIRED);
    w.Some? && JoinsWired(w.value, beats, hardCuts, n)
  }

  lemma {:induction false} RunJoins(beats: seq<Beat>, cuts: seq<Step>, takes: seq<Stream>, hardCuts: set<int>, n: nat)
    requires 0 < n <= |beats| && Moving(beats)
    requires RunsToCuts(cuts, takes, beats, |beats|)
    ensures RunsToJoins(cuts + Joins(beats, hardCuts, n), takes, beats, hardCuts, n)
  {
    if n == 1 {
      hide Run, CutsWired, JoinsWired;
      assert cuts + Joins(beats, hardCuts, 1) == cuts;
      CutsAreJoinedOnce(beats, hardCuts, Run(cuts, takes, UNWIRED).value);
    } else {
      var steps := cuts + Joins(beats, hardCuts, n - 1);
      assert cuts + Joins(beats, hardCuts, n) == steps + [Join(beats, hardCuts, n - 1)];
      hide RunsToCuts, RunsToJoins, Join, Joins;
      RunJoins(beats, cuts, takes, hardCuts, n - 1);
      AppendJoin(beats, steps, takes, hardCuts, n);
    }
  }

  lemma {:induction false} AppendJoin(beats: seq<Beat>, steps: seq<Step>, takes: seq<Stream>, hardCuts: set<int>,
                                    n: nat)
    requires 1 < n <= |beats| && Moving(beats)
    requires RunsToJoins(steps, takes, beats, hardCuts, n - 1)
    ensures RunsToJoins(steps + [Join(beats, hardCuts, n - 1)], takes, beats, hardCuts, n)
  {
    hide JoinsWired, Exec, Run, Join;
    RunAppend(steps, Join(beats, hardCuts, n - 1), takes, UNWIRED);
    ExecJoin(beats, takes, hardCuts, n, Run(steps, takes, UNWIRED).value);
  }

  lemma {:induction false} FirstBeatShowsFilm(beats: seq<Beat>, hardCuts: set<int>, s: Stream)
    requires beats != [] && Moving(beats) && ShowsBeat(s, beats[0])
    ensures ShowsFilm(s, beats, hardCuts, 1)
  {
    assert Offset(beats, hardCuts, 0) == 0.0;
  }

  /** Of a film of `n` beats: every pad has been defined, and all but `[out]` consumed. */
  ghost predicate WellWired(w: Wiring, n: nat) {
    && w.live.Keys == {OutPad}
    && forall pad :: pad in w.defined <==>
         match pad
         case BeatPad(i) => i < n
         case JoinPad(i) => 0 < i < n
         case OutPad => true
  }

  /** For every edit list the compiled graph is well wired - every pad is defined once and consumed once, after its
      definition, and only `[out]` is left - and `[out]` is the film, as long as the returned duration says. */
  lemma {:induction false} CompiledMeansFilm(beats: seq<Beat>, inputs: seq<string>, available: map<string, real>,
                                             takes: seq<Stream>, hardCuts: set<int>)
    requires beats != [] && Supplies(takes, beats, inputs, available) && Buildable(beats, inputs)
    ensures var g := Compiled(beats, inputs, hardCuts);
            var w := Run(g.steps, takes, UNWIRED);
            && w.Some? && WellWired(w.value, |beats|)
            && ShowsFilm(w.value.live[g.output], beats, hardCuts, |beats|)
            && w.value.live[g.output].until == g.duration
  {
    var n := |beats|;
    var steps := Cuts(beats, inputs, n) + Joins(beats, hardCuts, n);
    hide Cuts, Joins, Run, Cuttable, Supplies, RunsToCuts, RunsToJoins, ShowsFilm, Chain;
    forall i | 0 <= i < n
      ensures Cuttable(beats[i], inputs, takes)
    {
      SuppliedBeatIsCuttable(beats, inputs, available, takes, i);
    }
    RunCuts(beats, inputs, takes, n);
    RunJoins(beats, Cuts(beats, inputs, n), takes, hardCuts, n);
    AppendFormat(beats, steps, takes, hardCuts);
  }

  lemma {:induction false} AppendFormat(beats: seq<Beat>, steps: seq<Step>, takes: seq<Stream>, hardCuts: set<int>)
    requires beats != [] && Moving(beats) && RunsToJoins(steps, takes, beats, hardCuts, |beats|)
    ensures var w := Run(steps + [Format(Current(|beats|), OutPad)], takes, UNWIRED);
            && w.Some? && WellWired(w.value, |beats|)
            && ShowsFilm(w.value.live[OutPad], beats, hardCuts, |beats|)
  {
    hide Run, ShowsFilm;
    RunAppend(steps, Format(Current(|beats|), OutPad), takes, UNWIRED);
  }

  // ------------------------------------------------------------------ when the film is the intended timeline

  /** Beats that have not appeared yet change nothing. */
  lemma {:induction false} FilmSettles(beats: seq<Beat>, hardCuts: set<int>, n: nat, total: nat, t: real)
    requires 0 < n <= total <= |beats| && Moving(beats)
    requires forall j | n <= j < total :: t < Start(beats, hardCuts, j)
    ensures Film(beats, hardCuts, total, t) == Film(beats, hardCuts, n, t)
  {
    if n < total {
      FilmSettles(beats, hardCuts, n, total - 1, t);
    }
  }

  /** What is under the last dissolve is what tells the film from the timeline. */
  lemma {:induction false} FilmAtIff(beats: seq<Beat>, hardCuts: set<int>, t: real)
    requires beats != [] && Moving(beats) && t >= 0.0
    ensures var n := |beats|;
            var k := LastStarted(beats, hardCuts, n, t);
            Film(beats, hardCuts, n, t) == Timeline(beats, hardCuts, n, t)
            <==> k == 0 || t - Start(beats, hardCuts, k) >= Overlap(hardCuts, k)
                 || Film(beats, hardCuts, k, t) == Content(beats[k - 1], t - Start(beats, hardCuts, k - 1))
  {
    var k := LastStarted(beats, hardCuts, |beats|, t);
    FilmSettles(beats, hardCuts, k + 1, |beats|, t);
    assert Start(beats, hardCuts, 0) == 0.0;
  }

  lemma {:induction false} NextStart(beats: seq<Beat>, hardCuts: set<int>, k: nat)
    requires 0 < k <= |beats| && Moving(beats)
    ensures Start(beats, hardCuts, k)
         == Start(beats, hardCuts, k - 1) + Length(beats[k - 1]) - Overlap(hardCuts, k)
    ensures Start(beats, hardCuts, 0) == 0.0
  {
  }

  /** With room for the overlaps, a beat is alone by the time the next one dissolves over it. */
  lemma {:induction false} RoomMeansAlone(beats: seq<Beat>, hardCuts: set<int>, k: nat, t: real)
    requires 0 < k < |beats| && Moving(beats) && t >= 0.0 && Start(beats, hardCuts, k) <= t
    requires k == 1 || HasRoom(beats, hardCuts, k - 1)
    ensures Film(beats, hardCuts, k, t) == Content(beats[k - 1], t - Start(beats, hardCuts, k - 1))
  {
    hide Length, Start, Content;
    NextStart(beats, hardCuts, k);
  }

  lemma {:induction false} FilmIsTimelineAt(beats: seq<Beat>, hardCuts: set<int>, t: real)
    requires beats != [] && Moving(beats) && t >= 0.0 && RoomForOverlaps(beats, hardCuts)
    ensures Film(beats, hardCuts, |beats|, t) == Timeline(beats, hardCuts, |beats|, t)
  {
    var k := LastStarted(beats, hardCuts, |beats|, t);
    assert k > 1 ==> RoomBefore(beats, hardCuts, k);
    hide Film, Timeline, Start, RoomForOverlaps, HasRoom;
    FilmAtIff(beats, hardCuts, t);
    if k > 0 && t - Start(beats, hardCuts, k) < Overlap(hardCuts, k) {
      RoomMeansAlone(beats, hardCuts, k, t);
    }
  }

  ghost predicate IsTimeline(s: Stream, beats: seq<Beat>, hardCuts: set<int>)
    requires beats != [] && Moving(beats)
  {
    forall t | 0.0 <= t < s.until :: s.at(t) == Timeline(beats, hardCuts, |beats|, t)
  }

  /** With room for the overlaps, `[out]` is the intended timeline, at every time. */
  lemma {:induction false} CompiledMeansTimeline(beats: seq<Beat>, inputs: seq<string>, available: map<string, real>,
                                                 takes: seq<Stream>, hardCuts: set<int>)
    requires beats != [] && Supplies(takes, beats, inputs, available) && Buildable(beats, inputs)
    requires RoomForOverlaps(beats, hardCuts)
    ensures var g := Compiled(beats, inputs, hardCuts);
            var w := Run(g.steps, takes, UNWIRED);
            && w.Some? && WellWired(w.value, |beats|)
            && w.value.live[g.output].from == 0.0 && w.value.live[g.output].until == g.duration
            && IsTimeline(w.value.live[g.output], beats, hardCuts)
  {
    hide Run, Timeline, Film, Supplies, RoomForOverlaps, Cuts, Joins, Offset;
    CompiledMeansFilm(beats, inputs, available, takes, hardCuts);
    var g := Compiled(beats, inputs, hardCuts);
    var film := Run(g.steps, takes, UNWIRED).value.live[g.output];
    forall t | 0.0 <= t < film.until
      ensures film.at(t) == Timeline(beats, hardCuts, |beats|, t)
    {
      FilmIsTimelineAt(beats, hardCuts, t);
    }
  }

  /** Beat `k` follows a hard cut, or its cross-fade is not placed before the film begins. */
  predicate Placed(beats: seq<Beat>, hardCuts: set<int>, k: nat)
    requires k < |beats| && Moving(beats)
  {
    k in hardCuts || Start(beats, hardCuts, k) >= 0.0
  }

  /** No beat is empty, and no cross-fade is placed before the film begins. */
  predicate Proper(beats: seq<Beat>, hardCuts: set<int>)
    requires Moving(beats)
  {
    && (forall i | 0 <= i < |beats| :: Length(beats[i]) > 0.0)
    && forall k | 0 < k < |beats| :: Placed(beats, hardCuts, k)
  }

  /** When a dissolve begins over a beat that is shorter than it, no earlier beat is showing the very frame that leads
      into the short one. */
  predicate NothingRunsOn(beats: seq<Beat>, hardCuts: set<int>)
    requires Moving(beats)
  {
    forall m, k | 0 <= m < k - 1 < |beats| - 1 && k !in hardCuts && Length(beats[k - 1]) < DISSOLVE ::
      var t := Start(beats, hardCuts, k);
      Content(beats[m], t - Start(beats, hardCuts, m)) != Content(beats[k - 1], t - Start(beats, hardCuts, k - 1))
  }

  /** The film shows a dissolve, or one of its beats. */
  lemma {:induction false} FilmIsShown(beats: seq<Beat>, hardCuts: set<int>, n: nat, t: real) returns (m: nat)
    requires 0 < n <= |beats| && Moving(beats)
    ensures m < n
    ensures Film(beats, hardCuts, n, t).Blend?
         || Film(beats, hardCuts, n, t) == Content(beats[m], t - Start(beats, hardCuts, m))
  {
    if n == 1 || t >= Start(beats, hardCuts, n - 1) {
      m := n - 1;
      assert Start(beats, hardCuts, 0) == 0.0;
    } else {
      m := FilmIsShown(beats, hardCuts, n - 1, t);
    }
  }

  /** Without room, the beat before is not alone when the dissolve begins. */
  lemma {:induction false} NoRoomMeansNotAlone(beats: seq<Beat>, hardCuts: set<int>, k: nat)
    requires 1 < k < |beats| && Moving(beats) && !RoomBefore(beats, hardCuts, k)
    requires NothingRunsOn(beats, hardCuts)
    ensures var t := Start(beats, hardCuts, k);
            Film(beats, hardCuts, k, t) != Content(beats[k - 1], t - Start(beats, hardCuts, k - 1))
  {
    var t := Start(beats, hardCuts, k);
    assert Content(beats[k - 1], t - Start(beats, hardCuts, k - 1)).Padded?;
    NextStart(beats, hardCuts, k);
    hide Length, Start, Content;
    if t < Start(beats, hardCuts, k - 1) {
      var m := FilmIsShown(beats, hardCuts, k - 1, t);
      assert Content(beats[m], t - Start(beats, hardCuts, m))
          != Content(beats[k - 1], t - Start(beats, hardCuts, k - 1));
    }
  }

  lemma {:induction false} LastWithoutRoom(beats: seq<Beat>, hardCuts: set<int>) returns (k: nat)
    requires Moving(beats) && !RoomForOverlaps(beats, hardCuts)
    ensures 1 < k < |beats| && k !in hardCuts && !RoomBefore(beats, hardCuts, k)
    ensures forall j | k < j < |beats| :: RoomBefore(beats, hardCuts, j)
  {
    k := LastTight(beats, hardCuts, |beats|);
  }

  /** The last join that lacks room. */
  lemma {:induction false} LastTight(beats: seq<Beat>, hardCuts: set<int>, n: nat) returns (k: nat)
    requires n <= |beats| && Moving(beats)
    requires exists j | 1 < j < n :: !RoomBefore(beats, hardCuts, j)
    ensures 1 < k < n && !RoomBefore(beats, hardCuts, k)
    ensures forall j | k < j < n :: RoomBefore(beats, hardCuts, j)
  {
    k := n - 1;
    if RoomBefore(beats, hardCuts, k) {
      k := LastTight(beats, hardCuts, n - 1);
    }
  }

  /** From there on, the beats appear one after another. */
  lemma {:induction false} StartsFollow(beats: seq<Beat>, hardCuts: set<int>, k: nat, j: nat)
    requires 0 < k < j < |beats| && Moving(beats) && Proper(beats, hardCuts) && k !in hardCuts
    requires forall i | k < i < |beats| :: RoomBefore(beats, hardCuts, i)
    ensures Start(beats, hardCuts, k) < Start(beats, hardCuts, j)
  {
    NextStart(beats, hardCuts, j);
    assert Length(beats[j - 1]) > 0.0;
    assert RoomBefore(beats, hardCuts, j);
    assert j == k + 1 ==> Overlap(hardCuts, k) == DISSOLVE;
    hide Length, Start, Proper;
    if j > k + 1 {
      StartsFollow(beats, hardCuts, k, j - 1);
    }
  }

  /** The film lasts beyond the start of its last beat. */
  lemma {:induction false} FilmRunsOn(beats: seq<Beat>, hardCuts: set<int>, k: nat)
    requires k < |beats| && Moving(beats) && Proper(beats, hardCuts)
    requires k == |beats| - 1 || Start(beats, hardCuts, k) <= Start(beats, hardCuts, |beats| - 1)
    requires k > 0 && k !in hardCuts
    ensures 0.0 <= Start(beats, hardCuts, k) < Offset(beats, hardCuts, |beats|)
  {
    var n := |beats|;
    assert Length(beats[n - 1]) > 0.0 && Placed(beats, hardCuts, k);
    assert Offset(beats, hardCuts, n) == Start(beats, hardCuts, n - 1) + Length(beats[n - 1]);
  }

  /** The dissolve after the last beat without room begins within the film, and before any later beat appears. */
  lemma {:induction false} LastTightIsSeen(beats: seq<Beat>, hardCuts: set<int>, k: nat)
    requires 1 < k < |beats| && Moving(beats) && Proper(beats, hardCuts) && k !in hardCuts
    requires forall j | k < j < |beats| :: RoomBefore(beats, hardCuts, j)
    ensures 0.0 <= Start(beats, hardCuts, k) < Offset(beats, hardCuts, |beats|)
    ensures LastStarted(beats, hardCuts, |beats|, Start(beats, hardCuts, k)) == k
  {
    hide RoomBefore, Proper, Start, Offset;
    forall j | k < j < |beats|
      ensures Start(beats, hardCuts, k) < Start(beats, hardCuts, j)
    {
      StartsFollow(beats, hardCuts, k, j);
    }
    FilmRunsOn(beats, hardCuts, k);
  }

  /** Where room lacks for the last time, the film is not the timeline as the dissolve begins. */
  lemma {:induction false} NoRoomShows(beats: seq<Beat>, hardCuts: set<int>) returns (t: real)
    requires beats != [] && Moving(beats) && Proper(beats, hardCuts) && NothingRunsOn(beats, hardCuts)
    requires !RoomForOverlaps(beats, hardCuts)
    ensures 0.0 <= t < Offset(beats, hardCuts, |beats|)
    ensures Film(beats, hardCuts, |beats|, t) != Timeline(beats, hardCuts, |beats|, t)
  {
    hide Film, Timeline, NothingRunsOn, RoomForOverlaps, Proper, Start, Offset, Content, RoomBefore;
    var k := LastWithoutRoom(beats, hardCuts);
    t := Start(beats, hardCuts, k);
    LastTightIsSeen(beats, hardCuts, k);
    FilmAtIff(beats, hardCuts, t);
    NoRoomMeansNotAlone(beats, hardCuts, k);
  }

  /** Of beats that are not empty, and without cross-fades before the film begins, the graph shows the intended
      timeline exactly when every beat that is dissolved into the next has room for its overlaps - unless earlier
      footage happens to run on into a beat shorter than a dissolve. */
  lemma {:induction false} TimelineNeedsRoom(beats: seq<Beat>, inputs: seq<string>, available: map<string, real>,
                                             takes: seq<Stream>, hardCuts: set<int>)
    requires beats != [] && Supplies(takes, beats, inputs, available) && Buildable(beats, inputs)
    requires Proper(beats, hardCuts) && NothingRunsOn(beats, hardCuts)
    ensures var g := Compiled(beats, inputs, hardCuts);
            var w := Run(g.steps, takes, UNWIRED);
            && w.Some? && WellWired(w.value, |beats|)
            && (IsTimeline(w.value.live[g.output], beats, hardCuts) <==> RoomForOverlaps(beats, hardCuts))
  {
    hide Run, Timeline, Film, Supplies, RoomForOverlaps, Cuts, Joins, Offset, Proper, NothingRunsOn;
    CompiledMeansFilm(beats, inputs, available, takes, hardCuts);
    if RoomForOverlaps(beats, hardCuts) {
      CompiledMeansTimeline(beats, inputs, available, takes, hardCuts);
    } else {
      var t := NoRoomShows(beats, hardCuts);
    }
  }

  /** The dissolve into a beat and the dissolve out of the beat before it, both under way. */
  predicate BothDissolve(beats: seq<Beat>, hardCuts: set<int>, k: nat, t: real)
    requires 1 < k < |beats| && Moving(beats)
  {
    && Start(beats, hardCuts, k) <= t < Start(beats, hardCuts, k) + Overlap(hardCuts, k)
    && Start(beats, hardCuts, k - 1) <= t < Start(beats, hardCuts, k - 1) + Overlap(hardCuts, k - 1)
  }

  /** Then the graph blends three beats, and the timeline two. */
  lemma {:induction false} ThreeAtOnce(beats: seq<Beat>, hardCuts: set<int>, k: nat, t: real)
    requires 1 < k < |beats| && Moving(beats) && BothDissolve(beats, hardCuts, k, t) && t >= 0.0
    ensures Film(beats, hardCuts, k + 1, t) != Timeline(beats, hardCuts, k + 1, t)
  {
    assert Content(beats[k - 1], t - Start(beats, hardCuts, k - 1)).Padded?;
    hide Start, Content;
    assert Film(beats, hardCuts, k, t).Blend?;
    assert LastStarted(beats, hardCuts, k + 1, t) == k;
  }

  /** Two dissolves are ever under way at once exactly when the beat between them is not empty and has no room. */
  lemma {:induction false} BothDissolveIff(beats: seq<Beat>, hardCuts: set<int>, k: nat)
    requires 1 < k < |beats| && Moving(beats) && k !in hardCuts && k - 1 !in hardCuts
    requires Length(beats[k - 1]) >= 0.0
    ensures (exists t :: BothDissolve(beats, hardCuts, k, t))
        <==> Length(beats[k - 1]) > 0.0 && !HasRoom(beats, hardCuts, k - 1)
  {
    NextStart(beats, hardCuts, k);
    hide Length, Start;
    if Length(beats[k - 1]) > 0.0 && !HasRoom(beats, hardCuts, k - 1) {
      var t := Max(Start(beats, hardCuts, k), Start(beats, hardCuts, k - 1));
      assert BothDissolve(beats, hardCuts, k, t);
    }
  }

  /** A beat of half a second between two dissolves: as the second begins, the graph shows three beats. */
  lemma {:induction false} HalfSecondIsTooShort(x: string, y: string, z: string)
    ensures var beats := [Beat(x, 0.0, 1.0, 1.0, None), Beat(y, 0.0, 0.5, 1.0, None), Beat(z, 0.0, 1.0, 1.0, None)];
            && Moving(beats) && Proper(beats, {}) && NothingRunsOn(beats, {}) && !RoomForOverlaps(beats, {})
            && Start(beats, {}, 2) == 0.7
            && Film(beats, {}, 3, 0.7)
               == Blend(Blend(Padded(Scaled(Raw(x, 0.7))), Padded(Scaled(Raw(y, 0.1))), 0.25),
                        Padded(Scaled(Raw(z, 0.0))), 0.0)
            && Timeline(beats, {}, 3, 0.7)
               == Blend(Padded(Scaled(Raw(y, 0.1))), Padded(Scaled(Raw(z, 0.0))), 0.0)
  {
    var beats := [Beat(x, 0.0, 1.0, 1.0, None), Beat(y, 0.0, 0.5, 1.0, None), Beat(z, 0.0, 1.0, 1.0, None)];
    assert Length(beats[0]) == 1.0 && Length(beats[1]) == 0.5 && Length(beats[2]) == 1.0;
    NextStart(beats, {}, 1);
    NextStart(beats, {}, 2);
    assert !RoomBefore(beats, {}, 2);
    hide Start, Length;
    assert Film(beats, {}, 1, 0.7) == Padded(Scaled(Raw(x, 0.7)));
    assert Film(beats, {}, 2, 0.7) == Blend(Padded(Scaled(Raw(x, 0.7))), Padded(Scaled(Raw(y, 0.1))), 0.25);
    assert LastStarted(beats, {}, 3, 0.7) == 2;
  }

  /** After a hard cut within one take, a beat shorter than the dissolve that follows needs no room: its footage runs on
      from the beat before. */
  lemma {:induction false} RunningOnNeedsNoRoom(x: string, z: string, t: real)
    requires 0.0 <= t
    ensures var beats := [Beat(x, 0.0, 2.0, 1.0, None), Beat(x, 2.0, 2.1, 1.0, None), Beat(z, 0.0, 1.0, 1.0, None)];
            && Moving(beats) && Proper(beats, {1}) && !RoomForOverlaps(beats, {1})
            && Film(beats, {1}, 3, t) == Timeline(beats, {1}, 3, t)
  {
    var beats := [Beat(x, 0.0, 2.0, 1.0, None), Beat(x, 2.0, 2.1, 1.0, None), Beat(z, 0.0, 1.0, 1.0, None)];
    assert Length(beats[0]) == 2.0 && Length(beats[1]) == 0.1 && Length(beats[2]) == 1.0;
    NextStart(beats, {1}, 1);
    NextStart(beats, {1}, 2);
    assert !RoomBefore(beats, {1}, 2);
    hide Start, Length;
    FilmAtIff(beats, {1}, t);
    assert Film(beats, {1}, 2, t) == Padded(Scaled(Raw(x, t)));
  }

  function SoftJoins(hardCuts: set<int>, n: nat): nat {
    if n <= 1 then 0 else SoftJoins(hardCuts, n - 1) + if n - 1 in hardCuts then 0 else 1
  }

  function TotalLength(beats: seq<Beat>, n: nat): real
    requires n <= |beats| && Moving(beats)
  {
    if n == 0 then 0.0 else TotalLength(beats, n - 1) + Length(beats[n - 1])
  }

  /** The film is the beats laid end to end, less one dissolve per soft join. */
  lemma {:induction false} DurationLosesOneDissolvePerSoftJoin(beats: seq<Beat>, hardCuts: set<int>, n: nat)
    requires n <= |beats| && Moving(beats)
    ensures Offset(beats, hardCuts, n) == TotalLength(beats, n) - DISSOLVE * (SoftJoins(hardCuts, n) as real)
  {
    if n > 0 {
      DurationLosesOneDissolvePerSoftJoin(beats, hardCuts, n - 1);
    }
  }

  // ------------------------------------------------------------------ cuts that overrun their takes

  /** What `encode` lets through: a cut may end up to 0.05 s after its take does. */
  predicate Tolerated(beat: Beat, available: real) {
    0.0 <= beat.start <= beat.end <= available + 0.05 && beat.speed > 0.0
  }

  /** The take has all the footage the cut asks for. */
  predicate Covered(beat: Beat, available: real) {
    beat.end <= available || beat.end <= beat.start
  }

  /** How long a beat lasts, given how much footage there is. */
  function Lasting(beat: Beat, available: real): real
    requires beat.speed != 0.0
  {
    (Max(beat.start, Min(available, beat.end)) - beat.start) / beat.speed
  }

  lemma {:induction false} LastingFallsShortIff(beat: Beat, available: real)
    requires Tolerated(beat, available)
    ensures Lasting(beat, available) <= Length(beat)
    ensures Lasting(beat, available) == Length(beat) <==> Covered(beat, available)
  {
    var missing := beat.end - Max(beat.start, Min(available, beat.end));
    assert Length(beat) - Lasting(beat, available) == missing / beat.speed;
    assert missing == 0.0 <==> Covered(beat, available);
    assert missing > 0.0 ==> missing / beat.speed > 0.0;
  }

  lemma {:induction false} ChainLasts(beat: Beat, available: real)
    requires Tolerated(beat, available)
    ensures ApplyAll(Chain(beat), Take(beat.take, available)).until == Lasting(beat, available)
  {
    ChainUnrolled(beat, Take(beat.take, available));
  }

  /** The takes, as the inputs of the graph, when cuts may overrun them by the tolerance. */
  ghost predicate Tolerates(takes: seq<Stream>, beats: seq<Beat>, inputs: seq<string>, available: map<string, real>) {
    && |takes| == |inputs|
    && (forall k | 0 <= k < |inputs| :: inputs[k] in available && takes[k] == Take(inputs[k], available[inputs[k]]))
    && (forall i | 0 <= i < |beats| :: beats[i].take in inputs && Tolerated(beats[i], available[beats[i].take]))
  }

  /** How long each beat lasts. */
  ghost predicate AllLast(lasting: seq<real>, beats: seq<Beat>, available: map<string, real>) {
    && |lasting| == |beats|
    && forall i | 0 <= i < |beats| ::
         beats[i].speed != 0.0 && beats[i].take in available
         && lasting[i] == Lasting(beats[i], available[beats[i].take])
  }

  /** Where the stream of the first `n` joined beats ends: a cross-fade starts its second input at the offset that was
      computed, and a concatenation where the first has ended. */
  function Until(beats: seq<Beat>, hardCuts: set<int>, lasting: seq<real>, n: nat): real
    requires 0 < n <= |beats| == |lasting| && Moving(beats)
  {
    if n == 1 then lasting[0]
    else if n - 1 in hardCuts then Until(beats, hardCuts, lasting, n - 1) + lasting[n - 1]
    else Offset(beats, hardCuts, n - 1) - DISSOLVE + lasting[n - 1]
  }

  ghost predicate CutsLast(w: Wiring, lasting: seq<real>, n: nat)
    requires n <= |lasting|
  {
    && (forall pad :: pad in w.defined <==> pad.BeatPad? && pad.index < n)
    && w.live.Keys == w.defined
    && forall i: nat | i < n :: w.live[BeatPad(i)].until == lasting[i]
  }

  ghost predicate JoinsLast(w: Wiring, beats: seq<Beat>, hardCuts: set<int>, lasting: seq<real>, n: nat)
    requires 0 < n <= |beats| == |lasting| && Moving(beats)
  {
    && JoinPadsWired(w, |beats|, n)
    && (forall i: nat | n <= i < |beats| :: w.live[BeatPad(i)].until == lasting[i])
    && w.live[Current(n)].until == Until(beats, hardCuts, lasting, n)
  }

  lemma {:induction false} ExecCutLasts(cut: Step, takes: seq<Stream>, lasting: seq<real>, n: nat, w: Wiring)
    requires 0 < n <= |lasting| && CutsLast(w, lasting, n - 1)
    requires cut.Cut? && cut.out == BeatPad(n - 1) && cut.source < |takes|
    requires ApplyAll(cut.chain, takes[cut.source]).until == lasting[n - 1]
    ensures var w' := Exec(cut, takes, w);
            w'.Some? && CutsLast(w'.value, lasting, n)
  {
    hide ApplyAll;
  }

  /** The chain emitted for a beat, run on the input it names, lasts so long. */
  ghost predicate ChainLastsFor(beat: Beat, inputs: seq<string>, takes: seq<Stream>, length: real) {
    && beat.take in inputs && IndexOf(inputs, beat.take) < |takes|
    && ApplyAll(Chain(beat), takes[IndexOf(inputs, beat.take)]).until == length
  }

  lemma {:induction false} BeatLasts(beats: seq<Beat>, inputs: seq<string>, available: map<string, real>,
                                     takes: seq<Stream>, lasting: seq<real>, i: nat)
    requires Tolerates(takes, beats, inputs, available) && AllLast(lasting, beats, available) && i < |beats|
    ensures ChainLastsFor(beats[i], inputs, takes, lasting[i])
  {
    hide ApplyAll, Chain, Take, Lasting;
    ChainLasts(beats[i], available[beats[i].take]);
  }

  /** The steps run, and leave the first `n` beats cut to their lengths. */
  ghost predicate RunsToLengths(steps: seq<Step>, takes: seq<Stream>, lasting: seq<real>, n: nat)
    requires n <= |lasting|
  {
    var w := Run(steps, takes, UNWIRED);
    w.Some? && CutsLast(w.value, lasting, n)
  }

  lemma {:induction false} NoLengths(beats: seq<Beat>, inputs: seq<string>, takes: seq<Stream>, lasting: seq<real>)
    ensures Cuts(beats, inputs, 0) == [] && RunsToLengths([], takes, lasting, 0)
  {
  }

  lemma {:induction false} RunCutsLast(beats: seq<Beat>, inputs: seq<string>, takes: seq<Stream>, lasting: seq<real>,
                                     n: nat)
    requires n <= |beats| == |lasting| && Buildable(beats, inputs)
    requires forall i | 0 <= i < |beats| :: ChainLastsFor(beats[i], inputs, takes, lasting[i])
    ensures RunsToLengths(Cuts(beats, inputs, n), takes, lasting, n)
  {
    hide RunsToLengths, ChainLastsFor, Cuts, Chain, IndexOf;
    if n == 0 {
      NoLengths(beats, inputs, takes, lasting);
    } else {
      RunCutsLast(beats, inputs, takes, lasting, n - 1);
      CutsGrow(beats, inputs, n);
      AppendLasting(beats[n - 1], inputs, Cuts(beats, inputs, n - 1), takes, lasting, n);
    }
  }

  lemma {:induction false} AppendLasting(beat: Beat, inputs: seq<string>, steps: seq<Step>, takes: seq<Stream>,
                                         lasting: seq<real>, n: nat)
    requires 0 < n <= |lasting| && beat.take in inputs && ChainLastsFor(beat, inputs, takes, lasting[n - 1])
    requires RunsToLengths(steps, takes, lasting, n - 1)
    ensures RunsToLengths(steps + [Cut(IndexOf(inputs, beat.take), Chain(beat), BeatPad(n - 1))], takes, lasting, n)
  {
    var cut := Cut(IndexOf(inputs, beat.take), Chain(beat), BeatPad(n - 1));
    hide Run, CutsLast, Exec, ApplyAll, Chain, IndexOf;
    RunAppend(steps, cut, takes, UNWIRED);
    ExecCutLasts(cut, takes, lasting, n, Run(steps, takes, UNWIRED).value);
  }

  lemma {:induction false} ExecJoinLasts(beats: seq<Beat>, takes: seq<Stream>, hardCuts: set<int>, lasting: seq<real>,
                                         n: nat, w: Wiring)
    requires 1 < n <= |beats| == |lasting| && Moving(beats) && JoinsLast(w, beats, hardCuts, lasting, n - 1)
    ensures var w' := Exec(Join(beats, hardCuts, n - 1), takes, w);
            w'.Some? && JoinsLast(w'.value, beats, hardCuts, lasting, n)
  {
    ExecJoinPads(beats, takes, hardCuts, n, w);
    hide Exec, Join, Offset;
  }

  /** The steps run, and leave the first `n` beats joined to the length they come to. */
  ghost predicate RunsToJoinedLength(steps: seq<Step>, takes: seq<Stream>, beats: seq<Beat>, hardCuts: set<int>,
                                     lasting: seq<real>, n: nat)
    requires 0 < n <= |beats| == |lasting| && Moving(beats)
  {
    var w := Run(steps, takes, UNWIRED);
    w.Some? && JoinsLast(w.value, beats, hardCuts, lasting, n)
  }

  lemma {:induction false} FirstBeatLasts(beats: seq<Beat>, hardCuts: set<int>, lasting: seq<real>, w: Wiring)
    requires 0 < |beats| == |lasting| && Moving(beats) && CutsLast(w, lasting, |beats|)
    ensures JoinsLast(w, beats, hardCuts, lasting, 1)
  {
    assert BeatPad(0) in w.defined;
  }

  lemma {:induction false} RunJoinsLast(beats: seq<Beat>, cuts: seq<Step>, takes: seq<Stream>, hardCuts: set<int>,
                                        lasting: seq<real>, n: nat)
    requires 0 < n <= |beats| == |lasting| && Moving(beats)
    requires RunsToLengths(cuts, takes, lasting, |beats|)
    ensures RunsToJoinedLength(cuts + Joins(beats, hardCuts, n), takes, beats, hardCuts, lasting, n)
  {
    if n == 1 {
      hide Run, CutsLast, JoinsLast;
      assert cuts + Joins(beats, hardCuts, 1) == cuts;
      FirstBeatLasts(beats, hardCuts, lasting, Run(cuts, takes, UNWIRED).value);
    } else {
      var steps := cuts + Joins(beats, hardCuts, n - 1);
      assert cuts + Joins(beats, hardCuts, n) == steps + [Join(beats, hardCuts, n - 1)];
      hide RunsToLengths, RunsToJoinedLength, Join, Joins;
      RunJoinsLast(beats, cuts, takes, hardCuts, lasting, n - 1);
      AppendLastingJoin(beats, steps, takes, hardCuts, lasting, n);
    }
  }

  lemma {:induction false} AppendLastingJoin(beats: seq<Beat>, steps: seq<Step>, takes: seq<Stream>, hardCuts: set<int>,
                                             lasting: seq<real>, n: nat)
    requires 1 < n <= |beats| == |lasting| && Moving(beats)
    requires RunsToJoinedLength(steps, takes, beats, hardCuts, lasting, n - 1)
    ensures RunsToJoinedLength(steps + [Join(beats, hardCuts, n - 1)], takes, beats, hardCuts, lasting, n)
  {
    hide JoinsLast, Exec, Run, Join;
    RunAppend(steps, Join(beats, hardCuts, n - 1), takes, UNWIRED);
    ExecJoinLasts(beats, takes, hardCuts, lasting, n, Run(steps, takes, UNWIRED).value);
  }

  /** The beat that the last soft join leads into; the first beat when there is no soft join. */
  function LastSoftJoin(hardCuts: set<int>, n: nat): (i: nat)
    requires n > 0
    ensures i < n
  {
    if n == 1 || n - 1 !in hardCuts then n - 1 else LastSoftJoin(hardCuts, n - 1)
  }

  /** A missing stretch of footage shortens the film unless a soft join follows it. */
  lemma {:induction false} UntilMeetsOffsetIff(beats: seq<Beat>, available: map<string, real>, hardCuts: set<int>,
                                               lasting: seq<real>, n: nat)
    requires 0 < n <= |beats| && Moving(beats) && AllLast(lasting, beats, available)
    requires forall i | 0 <= i < |beats| :: Tolerated(beats[i], available[beats[i].take])
    ensures Until(beats, hardCuts, lasting, n) <= Offset(beats, hardCuts, n)
    ensures Until(beats, hardCuts, lasting, n) == Offset(beats, hardCuts, n)
        <==> forall i | LastSoftJoin(hardCuts, n) <= i < n :: Covered(beats[i], available[beats[i].take])
  {
    LastingFallsShortIff(beats[n - 1], available[beats[n - 1].take]);
    if n == 1 {
      assert Offset(beats, hardCuts, 0) == 0.0;
    } else {
      UntilMeetsOffsetIff(beats, available, hardCuts, lasting, n - 1);
    }
    hide Lasting, Length, Covered, Tolerated;
  }

  /** The film of an edit list that `encode` lets through ends where the joined streams do. */
  lemma {:induction false} FilmLasts(beats: seq<Beat>, inputs: seq<string>, available: map<string, real>,
                                     takes: seq<Stream>, hardCuts: set<int>, lasting: seq<real>)
    requires Tolerates(takes, beats, inputs, available) && Buildable(beats, inputs)
    requires 0 < |beats| == |lasting| && AllLast(lasting, beats, available)
    ensures var g := Compiled(beats, inputs, hardCuts);
            var w := Run(g.steps, takes, UNWIRED);
            && w.Some? && w.value.live.Keys == {g.output}
            && w.value.live[g.output].until == Until(beats, hardCuts, lasting, |beats|)
  {
    var n := |beats|;
    var steps := Cuts(beats, inputs, n) + Joins(beats, hardCuts, n);
    hide Run, Cuts, Joins, Until, Tolerates, AllLast, RunsToLengths, RunsToJoinedLength, ChainLastsFor, Chain, Lasting;
    forall i | 0 <= i < n
      ensures ChainLastsFor(beats[i], inputs, takes, lasting[i])
    {
      BeatLasts(beats, inputs, available, takes, lasting, i);
    }
    RunCutsLast(beats, inputs, takes, lasting, n);
    RunJoinsLast(beats, Cuts(beats, inputs, n), takes, hardCuts, lasting, n);
    FormatKeepsLength(beats, steps, takes, hardCuts, lasting);
  }

  lemma {:induction false} FormatKeepsLength(beats: seq<Beat>, steps: seq<Step>, takes: seq<Stream>, hardCuts: set<int>,
                                             lasting: seq<real>)
    requires 0 < |beats| == |lasting| && Moving(beats)
    requires RunsToJoinedLength(steps, takes, beats, hardCuts, lasting, |beats|)
    ensures var w := Run(steps + [Format(Current(|beats|), OutPad)], takes, UNWIRED);
            && w.Some? && w.value.live.Keys == {OutPad}
            && w.value.live[OutPad].until == Until(beats, hardCuts, lasting, |beats|)
  {
    hide Run, Until;
    RunAppend(steps, Format(Current(|beats|), OutPad), takes, UNWIRED);
  }

  /** For every edit list that `encode` lets through, the film is no longer than the returned duration, and exactly as
      long when every beat from the last soft join onwards has all its footage. A cross-fade places its second input at
      the computed offset, so what is missing before a soft join does not show in the length. */
  lemma {:induction false} DurationIsExactIff(beats: seq<Beat>, inputs: seq<string>, available: map<string, real>,
                                              takes: seq<Stream>, hardCuts: set<int>)
    requires beats != [] && Tolerates(takes, beats, inputs, available) && Buildable(beats, inputs)
    ensures var g := Compiled(beats, inputs, hardCuts);
            var w := Run(g.steps, takes, UNWIRED);
            && w.Some? && w.value.live.Keys == {g.output}
            && w.value.live[g.output].until <= g.duration
            && (w.value.live[g.output].until == g.duration
                <==> forall i | LastSoftJoin(hardCuts, |beats|) <= i < |beats| ::
                       Covered(beats[i], available[beats[i].take]))
  {
    var lasting := seq(|beats|, i requires 0 <= i < |beats| => Lasting(beats[i], available[beats[i].take]));
    hide Run, Cuts, Joins, Until, Offset, Lasting, Covered, Tolerated, LastSoftJoin;
    FilmLasts(beats, inputs, available, takes, hardCuts, lasting);
    UntilMeetsOffsetIff(beats, available, hardCuts, lasting, |beats|);
  }

  /** How long the compiled film of two takes of one second is. */
  ghost predicate FilmOfTwoTakesLasts(beats: seq<Beat>, hardCuts: set<int>, length: real)
    requires beats != [] && Buildable(beats, ["x", "y"])
  {
    var g := Compiled(beats, ["x", "y"], hardCuts);
    var w := Run(g.steps, [Take("x", 1.0), Take("y", 1.0)], UNWIRED);
    w.Some? && w.value.live.Keys == {g.output} && w.value.live[g.output].until == length
  }

  /** A film of one beat that overruns its take is short by the overrun; one of two such beats is short by both
      overruns when they are joined by a hard cut, and by the second alone when they are not. */
  lemma {:induction false} OverrunShortensUnlessDissolved(a: real, b: real)
    requires 0.0 < a <= 0.05 && 0.0 < b <= 0.05
    ensures var one := [Beat("x", 0.0, 1.0 + a, 1.0, None)];
            var two := one + [Beat("y", 0.0, 1.0 + b, 1.0, None)];
            && Buildable(one, ["x", "y"]) && Buildable(two, ["x", "y"])
            && FilmOfTwoTakesLasts(one, {}, Offset(one, {}, 1) - a)
            && FilmOfTwoTakesLasts(two, {1}, Offset(two, {1}, 2) - (a + b))
            && FilmOfTwoTakesLasts(two, {}, Offset(two, {}, 2) - b)
  {
    var one := [Beat("x", 0.0, 1.0 + a, 1.0, None)];
    var two := one + [Beat("y", 0.0, 1.0 + b, 1.0, None)];
    TwoTakesLast(one, {}, [1.0]);
    TwoTakesLast(two, {1}, [1.0, 1.0]);
    TwoTakesLast(two, {}, [1.0, 1.0]);
    assert Offset(one, {}, 0) == Offset(two, {}, 0) == Offset(two, {1}, 0) == 0.0;
    assert Offset(one, {}, 1) == Offset(two, {}, 1) == Offset(two, {1}, 1) == 1.0 + a;
  }

  lemma {:induction false} TwoTakesLast(beats: seq<Beat>, hardCuts: set<int>, lasting: seq<real>)
    requires 0 < |beats| == |lasting|
    requires forall i | 0 <= i < |beats| ::
               beats[i].take in ["x", "y"] && Tolerated(beats[i], 1.0) && lasting[i] == Lasting(beats[i], 1.0)
    ensures Buildable(beats, ["x", "y"])
    ensures FilmOfTwoTakesLasts(beats, hardCuts, Until(beats, hardCuts, lasting, |beats|))
  {
    hide Run, Cuts, Joins, Until, Lasting;
    FilmLasts(beats, ["x", "y"], map["x" := 1.0, "y" := 1.0], [Take("x", 1.0), Take("y", 1.0)], hardCuts, lasting);
  }
}
