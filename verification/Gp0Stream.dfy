/** GP0 streams as a whole: what a list of words means, without handlers or buffers, and the
    proof that the word at a time parser agrees. */
module Gp0Stream {
  import opened Gp0

  // ---- The meaning of a stream ----

  /** What the renderer is told, and whether the stream stops the GPU. */
  datatype Meaning = Meaning(log: seq<Entry>, stuck: bool) {
    function After(first: seq<Entry>): Meaning {
      Meaning(first + log, stuck)
    }
  }

  const NOTHING := Meaning([], false)

  /** The number of vertices before the end marker of a monochrome polyline. */
  function MonochromeLength(words: seq<Word>): (k: nat)
    ensures k <= |words|
    ensures forall i :: 0 <= i < k ==> !IsEndMarker(words[i])
    ensures k < |words| ==> IsEndMarker(words[k])
  {
    if words == [] || IsEndMarker(words[0]) then 0 else 1 + MonochromeLength(words[1..])
  }

  /** The segments of a monochrome polyline: each starts where the one before ended. */
  function MonochromeLines(a: Attributes, color: nat, start: Word, points: seq<Word>): seq<Entry> {
    seq(|points|, i requires 0 <= i < |points| =>
      Line(a, if i == 0 then start else points[i - 1], color, points[i], color))
  }

  /** The number of segments before the end marker of a shaded polyline, which only counts in
      the place of a color. */
  function ShadedLength(words: seq<Word>): (k: nat)
    ensures 2 * k <= |words|
    ensures forall i :: 0 <= i < k ==> !IsEndMarker(words[2 * i])
    ensures 2 * k + 1 < |words| ==> IsEndMarker(words[2 * k])
  {
    if |words| < 2 || IsEndMarker(words[0]) then 0
    else
      var k := ShadedLength(words[2..]);
      assert forall i :: 1 <= i < k + 1 ==> words[2 * i] == words[2..][2 * (i - 1)];
      1 + k
  }

  function ShadedLines(a: Attributes, color: nat, start: Word, words: seq<Word>, k: nat): seq<Entry>
    requires 2 * k <= |words|
  {
    seq(k, i requires 0 <= i < k =>
      Line(a, if i == 0 then start else words[2 * i - 1], if i == 0 then color else Color(words[2 * i - 2]),
           words[2 * i + 1], Color(words[2 * i])))
  }

  /** Two pixels a word, low half first. */
  function Pixels(words: seq<Word>): seq<nat> {
    seq(2 * |words|, i requires 0 <= i < 2 * |words| => if i % 2 == 0 then Low(words[i / 2]) else High(words[i / 2]))
  }

  function Parse(drawMode: nat, words: seq<Word>): Meaning
    decreases |words|
  {
    if words == [] then NOTHING
    else
      match Lookup(Opcode(words[0]))
      case None => Meaning([], true)
      case Some(info) =>
        if |words| < info.len then NOTHING
        else ParseCommand(drawMode, info, words[..info.len], words[info.len..])
  }

  function ParseCommand(drawMode: nat, info: Info, body: seq<Word>, rest: seq<Word>): Meaning
    requires body != [] && |body| >= WordsRead(info.callback)
    decreases |body| + |rest|, 0
  {
    var a := AttributesOf(Opcode(body[0]), info.dithers, drawMode);
    match info.callback
    case MonochromePolyline => ParseMonochrome(drawMode, a, Color(body[0]), body[2], rest)
        .After([Line(a, body[1], Color(body[0]), body[2], Color(body[0]))])
    case ShadedPolyline => ParseShaded(drawMode, a, Color(body[2]), body[3], rest)
        .After([Line(a, body[1], Color(body[0]), body[3], Color(body[2]))])
    case ImageLoad => ParseImage(drawMode, body[1], body[2], rest)
    case DrawMode => Parse(Low(body[0]), rest).After([Executed(DrawMode, a, drawMode, body)])
    case _ => Parse(drawMode, rest).After([Executed(info.callback, a, drawMode, body)])
  }

  function ParseMonochrome(drawMode: nat, a: Attributes, color: nat, start: Word, rest: seq<Word>): Meaning
    decreases |rest| + 1, 0
  {
    var k := MonochromeLength(rest);
    (if k < |rest| then Parse(drawMode, rest[k + 1..]) else NOTHING).After(MonochromeLines(a, color, start, rest[..k]))
  }

  function ParseShaded(drawMode: nat, a: Attributes, color: nat, start: Word, rest: seq<Word>): Meaning
    decreases |rest| + 1, 0
  {
    var k := ShadedLength(rest);
    (if 2 * k < |rest| && IsEndMarker(rest[2 * k]) then Parse(drawMode, rest[2 * k + 1..]) else NOTHING)
    .After(ShadedLines(a, color, start, rest, k))
  }

  function ParseImage(drawMode: nat, pos: Word, size: Word, rest: seq<Word>): Meaning
    decreases |rest| + 1, 0
  {
    var width, height := Low(size), High(size);
    var n := ImageWords(width, height);
    if n == 0 then Parse(drawMode, rest)
    else if n > VRAM_WORDS && |rest| > VRAM_WORDS then Meaning([], true)
    else if |rest| < n then NOTHING
    else
      Parse(drawMode, rest[n..])
      .After([LoadImage(Low(pos), High(pos), width, height, Pixels(rest[..n])[..width * height])])
  }

  // ---- Feeding in parts ----

  lemma {:induction false} FeedAppend(m: Machine, a: seq<Word>, b: seq<Word>)
    requires m.Valid()
    ensures Feed(m, a + b) == Feed(Feed(m, a), b)
    decreases |a|
  {
    if a == [] {
      assert a + b == b;
    } else if m.Running? {
      StepKeepsValid(m.port, a[0]);
      assert (a + b)[1..] == a[1..] + b;
      FeedAppend(Step(m.port, a[0]), a[1..], b);
    }
  }

  lemma FeedSplit(p: Port, words: seq<Word>, k: nat)
    requires p.Valid() && k <= |words|
    ensures Feed(Running(p), words) == Feed(Feed(Running(p), words[..k]), words[k..])
  {
    var a, b := words[..k], words[k..];
    assert words == a + b;
    FeedAppend(Running(p), a, b);
  }

  /** A machine means what it has said so far, followed by the meaning of the rest. */
  ghost predicate Agrees(m: Machine, log: seq<Entry>, meaning: Meaning)
  {
    m.Log() == log + meaning.log && m.Panicked? == meaning.stuck
  }

  // ---- Fixed length commands ----

  lemma {:induction false} Incomplete(p: Port, words: seq<Word>)
    requires p.Valid() && p.handler.Parameter? && |words| < p.remaining
    ensures Feed(Running(p), words) ==
            Running(p.(command := p.command + words, remaining := p.remaining - |words|))
    decreases |words|
  {
    if words == [] {
      assert p.command + words == p.command;
    } else {
      var q := MoreParameters(p, words[0]);
      Incomplete(q, words[1..]);
      assert p.command + [words[0]] + words[1..] == p.command + words;
    }
  }

  lemma MoreParameters(p: Port, w: Word) returns (q: Port)
    requires p.Valid() && p.handler.Parameter? && p.remaining > 1
    ensures Step(p, w) == Running(q) && q.Valid()
    ensures q == p.(command := p.command + [w], remaining := p.remaining - 1)
  {
    StepKeepsValid(p, w);
    q := Step(p, w).port;
  }

  /** The state in which a command runs. */
  function Ready(p: Port, info: Info, body: seq<Word>): Port
    requires body != []
  {
    p.(handler := Command, remaining := 0, command := body, callback := info.callback,
       attributes := AttributesOf(Opcode(body[0]), info.dithers, p.drawMode))
  }

  ghost function Opened(p: Port, info: Info, body: seq<Word>): Port
    requires 0 < |body| <= info.len
  {
    Ready(p, info, body).(handler := Parameter, remaining := info.len - |body|)
  }

  lemma OpenCommand(p: Port, words: seq<Word>)
    requires p.handler.Command? && words != [] && Lookup(Opcode(words[0])).Some?
    requires |words| < Lookup(Opcode(words[0])).value.len
    ensures Feed(Running(p), words) == Running(Opened(p, Lookup(Opcode(words[0])).value, words))
  {
    var info := Lookup(Opcode(words[0])).value;
    StepKeepsValid(p, words[0]);
    var q := Opened(p, info, [words[0]]);
    assert Step(p, words[0]) == Running(q) by {
      assert [] + [words[0]] == [words[0]];
    }
    Incomplete(q, words[1..]);
    assert [words[0]] + words[1..] == words;
  }

  lemma WholeCommand(p: Port, body: seq<Word>)
    requires p.handler.Command? && body != [] && Lookup(Opcode(body[0])).Some?
    requires |body| == Lookup(Opcode(body[0])).value.len >= WordsRead(Lookup(Opcode(body[0])).value.callback)
    ensures Feed(Running(p), body) == Running(Execute(Ready(p, Lookup(Opcode(body[0])).value, body)))
  {
    var info := Lookup(Opcode(body[0])).value;
    var n := |body| - 1;
    if n == 0 {
      StepKeepsValid(p, body[0]);
      assert [] + [body[0]] == body && body[1..] == [];
    } else {
      OpenCommand(p, body[..n]);
      FeedSplit(p, body, n);
      LastParameter(Opened(p, info, body[..n]), body[n]);
      assert body[n..] == [body[n]] && body[..n] + [body[n]] == body;
    }
  }

  lemma LastParameter(p: Port, w: Word)
    requires p.Valid() && p.handler.Parameter? && p.remaining == 1
    ensures |p.command| + 1 >= WordsRead(p.callback)
    ensures Feed(Running(p), [w]) ==
            Running(Execute(p.(command := p.command + [w], remaining := 0, handler := Command)))
  {
    StepKeepsValid(p, w);
    assert [w][1..] == [];
  }

  // ---- Polylines ----

  lemma {:induction false} MonochromeFeed(p: Port, points: seq<Word>)
    requires p.handler.MonochromeVertex? && forall w :: w in points ==> !IsEndMarker(w)
    ensures Feed(Running(p), points) == Running(
              p.(log := p.log + MonochromeLines(p.attributes, p.prevColor, p.prev, points),
                 prev := if points == [] then p.prev else points[|points| - 1]))
    decreases |points|
  {
    if points == [] {
      assert p.log + MonochromeLines(p.attributes, p.prevColor, p.prev, points) == p.log;
    } else {
      StepKeepsValid(p, points[0]);
      var q := Step(p, points[0]).port;
      MonochromeFeed(q, points[1..]);
      var lines := MonochromeLines(p.attributes, p.prevColor, p.prev, points);
      assert lines == [lines[0]] + MonochromeLines(p.attributes, p.prevColor, points[0], points[1..]);
      assert p.log + [lines[0]] + lines[1..] == p.log + lines;
    }
  }

  lemma {:induction false} ShadedFeed(p: Port, words: seq<Word>, k: nat)
    requires p.handler.ShadedColor? && |words| == 2 * k
    requires forall i :: 0 <= i < k ==> !IsEndMarker(words[2 * i])
    ensures Feed(Running(p), words).Running?
    ensures var q := Feed(Running(p), words).port;
      && q.log == p.log + ShadedLines(p.attributes, p.prevColor, p.prev, words, k)
      && q.handler.ShadedColor? && q.drawMode == p.drawMode
    decreases k
  {
    var lines := ShadedLines(p.attributes, p.prevColor, p.prev, words, k);
    if k == 0 {
      assert p.log + lines == p.log;
    } else {
      assert !IsEndMarker(words[2 * 0]);
      var q := ShadedSegment(p, words[0], words[1]);
      assert words[..2] == [words[0], words[1]];
      FeedSplit(p, words, 2);
      ShadedTail(p.attributes, p.prevColor, p.prev, words, k);
      ShadedFeed(q, words[2..], k - 1);
      var more := ShadedLines(q.attributes, q.prevColor, q.prev, words[2..], k - 1);
      assert p.log + [lines[0]] + more == p.log + ([lines[0]] + more);
    }
  }

  /** The first segment and the others. */
  lemma ShadedTail(a: Attributes, color: nat, start: Word, words: seq<Word>, k: nat)
    requires k > 0 && |words| == 2 * k && forall i :: 0 <= i < k ==> !IsEndMarker(words[2 * i])
    ensures forall i :: 0 <= i < k - 1 ==> !IsEndMarker(words[2..][2 * i])
    ensures ShadedLines(a, color, start, words, k) ==
            [Line(a, start, color, words[1], Color(words[0]))]
            + ShadedLines(a, Color(words[0]), words[1], words[2..], k - 1)
  {
    var lines, more := ShadedLines(a, color, start, words, k), ShadedLines(a, Color(words[0]), words[1], words[2..], k - 1);
    forall i | 0 <= i < k - 1 ensures !IsEndMarker(words[2..][2 * i]) && more[i] == lines[i + 1] {
      assert words[2..][2 * i] == words[2 * (i + 1)] && words[2..][2 * i + 1] == words[2 * (i + 1) + 1];
    }
  }

  lemma ShadedSegment(p: Port, c: Word, w: Word) returns (q: Port)
    requires p.handler.ShadedColor? && !IsEndMarker(c)
    ensures Feed(Running(p), [c, w]) == Running(q)
    ensures q.handler.ShadedColor? && q.drawMode == p.drawMode && q.attributes == p.attributes
    ensures q.prev == w && q.prevColor == Color(c)
    ensures q.log == p.log + [Line(p.attributes, p.prev, p.prevColor, w, Color(c))]
  {
    StepKeepsValid(p, c);
    var p1 := Step(p, c).port;
    StepKeepsValid(p1, w);
    q := Step(p1, w).port;
    assert [c, w][1..] == [w] && [w][1..] == [];
    assert Feed(Running(p1), [w]) == Feed(Running(q), []);
  }

  // ---- Image uploads ----

  lemma {:induction false} ImageFeed(p: Port, words: seq<Word>)
    requires p.Valid() && p.handler.ImageData? && |words| < p.remaining
    requires |p.image.pixels| + 2 * |words| <= VRAM_SIZE_PIXELS
    ensures Feed(Running(p), words) == Running(
              p.(image := p.image.(pixels := p.image.pixels + Pixels(words)), remaining := p.remaining - |words|))
    decreases |words|
  {
    if words == [] {
      assert p.image.pixels + Pixels(words) == p.image.pixels;
    } else {
      StepKeepsValid(p, words[0]);
      var first := [Low(words[0]), High(words[0])];
      var q := Step(p, words[0]).port;
      ImageFeed(q, words[1..]);
      PixelsCons(words);
      assert p.image.pixels + first + Pixels(words[1..]) == p.image.pixels + (first + Pixels(words[1..]));
    }
  }

  lemma PixelsCons(words: seq<Word>)
    requires words != []
    ensures Pixels(words) == [Low(words[0]), High(words[0])] + Pixels(words[1..])
  {
    var more := Pixels(words[1..]);
    forall i | 0 <= i < |more| ensures more[i] == Pixels(words)[i + 2] {
      assert (i + 2) / 2 == i / 2 + 1 && (i + 2) % 2 == i % 2;
    }
  }

  lemma PixelsSnoc(words: seq<Word>, w: Word)
    ensures Pixels(words + [w]) == Pixels(words) + [Low(w), High(w)]
  {
    var n := |words|;
    assert (2 * n) / 2 == n && (2 * n + 1) / 2 == n && (2 * n) % 2 == 0 && (2 * n + 1) % 2 == 1;
  }

  /** The last word completes the image. */
  lemma ImageDone(p: Port, w: Word)
    requires p.Valid() && p.handler.ImageData? && p.remaining == 1 && |p.image.pixels| + 2 <= VRAM_SIZE_PIXELS
    ensures p.image.width * p.image.height <= |p.image.pixels| + 2
    ensures Feed(Running(p), [w]) == Running(
              Emit(p, LoadImage(p.image.x, p.image.y, p.image.width, p.image.height,
                                (p.image.pixels + [Low(w), High(w)])[..p.image.width * p.image.height]))
              .(remaining := 0, image := NO_IMAGE, handler := Command))
  {
    StepKeepsValid(p, w);
    assert [w][1..] == [];
  }

  /** The state of the parser when the data of an image begins. */
  ghost predicate Uploading(p: Port, pos: Word, size: Word) {
    && p.handler.ImageData? && p.Valid()
    && p.image == Image(Low(pos), High(pos), Low(size), High(size), [])
  }

  lemma WholeImage(p: Port, pos: Word, size: Word, words: seq<Word>) returns (q: Port)
    requires Uploading(p, pos, size) && |words| == ImageWords(Low(size), High(size)) <= VRAM_WORDS
    ensures Feed(Running(p), words) == Running(q) && q.handler.Command? && q.drawMode == p.drawMode
    ensures Low(size) * High(size) <= |Pixels(words)|
    ensures q.log == p.log + [LoadImage(Low(pos), High(pos), Low(size), High(size),
                                        Pixels(words)[..Low(size) * High(size)])]
  {
    var n := |words| - 1;
    var a, w := words[..n], words[n];
    ImageFeed(p, a);
    var p1 := Feed(Running(p), a).port;
    assert p1.image.pixels == Pixels(a);
    ImageDone(p1, w);
    FeedSplit(p, words, n);
    assert words[n..] == [w] && words == a + [w];
    PixelsSnoc(a, w);
    q := Feed(Running(p1), [w]).port;
  }

  /** An image larger than the buffer stops the GPU at the first word that does not fit. */
  lemma ImageOverflows(p: Port, pos: Word, size: Word, words: seq<Word>)
    requires Uploading(p, pos, size) && ImageWords(Low(size), High(size)) > VRAM_WORDS && |words| > VRAM_WORDS
    ensures Feed(Running(p), words) == Panicked(p.log)
  {
    var a, b := words[..VRAM_WORDS], words[VRAM_WORDS..];
    ImageFeed(p, a);
    FeedSplit(p, words, VRAM_WORDS);
    StepKeepsValid(Feed(Running(p), a).port, b[0]);
  }

  // ---- The theorem ----

  lemma AgreesAfter(m: Machine, p: Port, log: seq<Entry>, first: seq<Entry>, meaning: Meaning)
    requires p.log == log + first && Agrees(m, p.log, meaning)
    ensures Agrees(m, log, meaning.After(first))
  {
    assert log + first + meaning.log == log + (first + meaning.log);
  }

  /** For every stream the parser tells the renderer what the stream means, and it stops the
      GPU if and only if the stream does. */
  lemma {:induction false} StreamAgrees(p: Port, words: seq<Word>)
    requires p.handler.Command?
    ensures Agrees(Feed(Running(p), words), p.log, Parse(p.drawMode, words))
    decreases |words|, 2
  {
    if words == [] {
    } else if Lookup(Opcode(words[0])).None? {
      assert Feed(Running(p), words) == Panicked(p.log);
    } else {
      var info := Lookup(Opcode(words[0])).value;
      if |words| < info.len {
        OpenCommand(p, words);
      } else {
        var body, rest := words[..info.len], words[info.len..];
        WholeCommand(p, body);
        FeedSplit(p, words, info.len);
        CommandAgrees(p, info, body, rest);
      }
    }
  }

  lemma {:induction false} CommandAgrees(p: Port, info: Info, body: seq<Word>, rest: seq<Word>)
    requires body != [] && |body| >= WordsRead(info.callback) && Execute(Ready(p, info, body)).Valid()
    ensures Agrees(Feed(Running(Execute(Ready(p, info, body))), rest), p.log, ParseCommand(p.drawMode, info, body, rest))
    decreases |body| + |rest|, 1
  {
    var r := Ready(p, info, body);
    var q := Execute(r);
    var a := r.attributes;
    match info.callback
    case MonochromePolyline =>
      MonochromeAgrees(q, rest);
      var first := [Line(a, body[1], Color(body[0]), body[2], Color(body[0]))];
      AgreesAfter(Feed(Running(q), rest), q, p.log, first, ParseMonochrome(p.drawMode, a, Color(body[0]), body[2], rest));
    case ShadedPolyline =>
      ShadedAgrees(q, rest);
      var first := [Line(a, body[1], Color(body[0]), body[3], Color(body[2]))];
      AgreesAfter(Feed(Running(q), rest), q, p.log, first, ParseShaded(p.drawMode, a, Color(body[2]), body[3], rest));
    case ImageLoad =>
      if ImageWords(Low(body[2]), High(body[2])) == 0 {
        StreamAgrees(q, rest);
      } else {
        ImageAgrees(q, body[1], body[2], rest);
      }
    case DrawMode =>
      StreamAgrees(q, rest);
      AgreesAfter(Feed(Running(q), rest), q, p.log, [Executed(DrawMode, a, p.drawMode, body)], Parse(Low(body[0]), rest));
    case _ =>
      StreamAgrees(q, rest);
      AgreesAfter(Feed(Running(q), rest), q, p.log, [Executed(info.callback, a, p.drawMode, body)], Parse(p.drawMode, rest));
  }

  lemma {:induction false} MonochromeAgrees(p: Port, rest: seq<Word>)
    requires p.handler.MonochromeVertex?
    ensures Agrees(Feed(Running(p), rest), p.log,
                   ParseMonochrome(p.drawMode, p.attributes, p.prevColor, p.prev, rest))
    decreases |rest| + 1, 0
  {
    var k := MonochromeLength(rest);
    var lines := MonochromeLines(p.attributes, p.prevColor, p.prev, rest[..k]);
    MonochromeFeed(p, rest[..k]);
    FeedSplit(p, rest, k);
    var q := Feed(Running(p), rest[..k]).port;
    if k < |rest| {
      var c := PolylineEnds(q, rest[k..]);
      assert rest[k..][1..] == rest[k + 1..];
      StreamAgrees(c, rest[k + 1..]);
      AgreesAfter(Feed(Running(p), rest), c, p.log, lines, Parse(p.drawMode, rest[k + 1..]));
    } else {
      assert rest[k..] == [];
      AgreesAfter(Feed(Running(p), rest), q, p.log, lines, NOTHING);
    }
  }

  lemma PolylineEnds(p: Port, words: seq<Word>) returns (q: Port)
    requires p.handler.MonochromeVertex? || p.handler.ShadedColor?
    requires words != [] && IsEndMarker(words[0])
    ensures q == p.(handler := Command) && Feed(Running(p), words) == Feed(Running(q), words[1..])
  {
    StepKeepsValid(p, words[0]);
    q := Step(p, words[0]).port;
  }

  lemma {:induction false} ShadedAgrees(p: Port, rest: seq<Word>)
    requires p.handler.ShadedColor?
    ensures Agrees(Feed(Running(p), rest), p.log, ParseShaded(p.drawMode, p.attributes, p.prevColor, p.prev, rest))
    decreases |rest| + 1, 0
  {
    var k := ShadedLength(rest);
    var lines := ShadedLines(p.attributes, p.prevColor, p.prev, rest, k);
    var a := rest[..2 * k];
    assert ShadedLines(p.attributes, p.prevColor, p.prev, a, k) == lines;
    ShadedFeed(p, a, k);
    FeedSplit(p, rest, 2 * k);
    var q := Feed(Running(p), a).port;
    if 2 * k < |rest| && IsEndMarker(rest[2 * k]) {
      var c := PolylineEnds(q, rest[2 * k..]);
      assert rest[2 * k..][1..] == rest[2 * k + 1..];
      StreamAgrees(c, rest[2 * k + 1..]);
      AgreesAfter(Feed(Running(p), rest), c, p.log, lines, Parse(p.drawMode, rest[2 * k + 1..]));
    } else {
      LoneColor(q, rest[2 * k..]);
      AgreesAfter(Feed(Running(p), rest), q, p.log, lines, NOTHING);
    }
  }

  /** A color without a vertex draws nothing yet. */
  lemma LoneColor(p: Port, words: seq<Word>)
    requires p.handler.ShadedColor? && |words| <= 1
    ensures Feed(Running(p), words).Running? && Feed(Running(p), words).Log() == p.log
  {
    if words != [] {
      StepKeepsValid(p, words[0]);
      assert words[1..] == [];
    }
  }

  lemma {:induction false} ImageAgrees(p: Port, pos: Word, size: Word, rest: seq<Word>)
    requires Uploading(p, pos, size) && p.remaining == ImageWords(Low(size), High(size)) > 0
    ensures Agrees(Feed(Running(p), rest), p.log, ParseImage(p.drawMode, pos, size, rest))
    decreases |rest| + 1, 0
  {
    var n := ImageWords(Low(size), High(size));
    if n > VRAM_WORDS && |rest| > VRAM_WORDS {
      ImageOverflows(p, pos, size, rest);
    } else if |rest| < n {
      ImageFeed(p, rest);
    } else {
      var c := WholeImage(p, pos, size, rest[..n]);
      FeedSplit(p, rest, n);
      StreamAgrees(c, rest[n..]);
      var image := LoadImage(Low(pos), High(pos), Low(size), High(size), Pixels(rest[..n])[..Low(size) * High(size)]);
      AgreesAfter(Feed(Running(p), rest), c, p.log, [image], Parse(p.drawMode, rest[n..]));
    }
  }
}
