/** The GP0 command port of the GPU (src/gpu/mod.rs): a parser that gets one word at a time
    and swaps its handler between commands, polylines and image uploads. The renderer is a
    log of what it is told to do. */
module Gp0 {
  import opened Options
  import opened Arithmetic

  type Word = w: nat | w < 0x1_0000_0000

  const VRAM_SIZE_PIXELS: nat := 1024 * 512
  const VRAM_WORDS: nat := 512 * 512
  const BUFFER_WORDS: nat := 12

  // ---- Words ----

  function Low(w: Word): nat {
    w % 0x1_0000
  }

  function High(w: Word): nat {
    w / 0x1_0000
  }

  function Opcode(w: Word): nat {
    w / 0x100_0000
  }

  function Color(w: Word): nat {
    w % 0x100_0000
  }

  /** The end of a polyline has the form 0x5XXX5XXX. */
  predicate IsEndMarker(w: Word) {
    w / 0x1000_0000 == 5 && w / 0x1000 % 16 == 5
  }

  // ---- Commands ----

  datatype Callback =
    | Nop | ClearCache | FillRect
    | MonochromeTriangle | TexturedTriangle | MonochromeQuad | TexturedQuad
    | ShadedTriangle | TexturedShadedTriangle | ShadedQuad | TexturedShadedQuad
    | MonochromeLine | MonochromePolyline | ShadedLine | ShadedPolyline
    | MonochromeRect | TexturedRect | MonochromeRect1x1 | TexturedRect8x8
    | MonochromeRect16x16 | TexturedRect16x16
    | CopyRect | ImageLoad | ImageStore
    | DrawMode | TextureWindow | DrawingAreaTopLeft | DrawingAreaBottomRight | DrawingOffset | MaskBitSetting

  /** The length in words, the callback, and whether it dithers. */
  datatype Info = Info(len: nat, callback: Callback, dithers: bool)

  /** No command is longer than the buffer or shorter than what its callback reads. */
  function Lookup(op: nat): (r: Option<Info>)
    ensures r.Some? ==> 1 <= r.value.len <= BUFFER_WORDS && WordsRead(r.value.callback) <= r.value.len
  {
    if op < 0x40 then Polygons(op)
    else if op < 0x60 then Lines(op)
    else if op < 0x80 then Rectangles(op)
    else if op < 0xe0 then Copies(op)
    else Settings(op)
  }

  function Polygons(op: nat): (r: Option<Info>)
    ensures r.Some? ==> 1 <= r.value.len <= BUFFER_WORDS && WordsRead(r.value.callback) <= r.value.len
  {
    if op == 0x00 then Some(Info(1, Nop, false))
    else if op == 0x01 then Some(Info(1, ClearCache, false))
    else if op == 0x02 then Some(Info(3, FillRect, false))
    else if op == 0x20 || op == 0x22 then Some(Info(4, MonochromeTriangle, false))
    else if 0x24 <= op <= 0x27 then Some(Info(7, TexturedTriangle, true))
    else if op == 0x28 || op == 0x2a then Some(Info(5, MonochromeQuad, false))
    else if 0x2c <= op <= 0x2f then Some(Info(9, TexturedQuad, true))
    else if op == 0x30 || op == 0x32 then Some(Info(6, ShadedTriangle, true))
    else if op == 0x34 || op == 0x36 then Some(Info(9, TexturedShadedTriangle, true))
    else if op == 0x38 || op == 0x3a then Some(Info(8, ShadedQuad, true))
    else if op == 0x3c || op == 0x3e then Some(Info(12, TexturedShadedQuad, true))
    else None
  }

  function Lines(op: nat): (r: Option<Info>)
    ensures r.Some? ==> 1 <= r.value.len <= BUFFER_WORDS && WordsRead(r.value.callback) <= r.value.len
  {
    if op == 0x40 || op == 0x42 then Some(Info(3, MonochromeLine, false))
    else if op == 0x48 || op == 0x4a then Some(Info(3, MonochromePolyline, false))
    else if op == 0x50 || op == 0x52 then Some(Info(4, ShadedLine, false))
    else if op == 0x58 || op == 0x5a then Some(Info(4, ShadedPolyline, false))
    else None
  }

  function Rectangles(op: nat): (r: Option<Info>)
    ensures r.Some? ==> 1 <= r.value.len <= BUFFER_WORDS && WordsRead(r.value.callback) <= r.value.len
  {
    if op == 0x60 || op == 0x62 then Some(Info(3, MonochromeRect, false))
    else if 0x64 <= op <= 0x67 then Some(Info(4, TexturedRect, false))
    else if op == 0x68 || op == 0x6a then Some(Info(2, MonochromeRect1x1, false))
    else if 0x74 <= op <= 0x77 then Some(Info(3, TexturedRect8x8, false))
    else if op == 0x78 || op == 0x7a then Some(Info(2, MonochromeRect16x16, false))
    else if 0x7c <= op <= 0x7f then Some(Info(3, TexturedRect16x16, false))
    else None
  }

  function Copies(op: nat): (r: Option<Info>)
    ensures r.Some? ==> 1 <= r.value.len <= BUFFER_WORDS && WordsRead(r.value.callback) <= r.value.len
  {
    if op == 0x80 then Some(Info(4, CopyRect, false))
    else if op == 0xa0 then Some(Info(3, ImageLoad, false))
    else if op == 0xc0 then Some(Info(3, ImageStore, false))
    else None
  }

  function Settings(op: nat): (r: Option<Info>)
    ensures r.Some? ==> 1 <= r.value.len <= BUFFER_WORDS && WordsRead(r.value.callback) <= r.value.len
  {
    if op == 0xe1 then Some(Info(1, DrawMode, false))
    else if op == 0xe2 then Some(Info(1, TextureWindow, false))
    else if op == 0xe3 then Some(Info(1, DrawingAreaTopLeft, false))
    else if op == 0xe4 then Some(Info(1, DrawingAreaBottomRight, false))
    else if op == 0xe5 then Some(Info(1, DrawingOffset, false))
    else if op == 0xe6 then Some(Info(1, MaskBitSetting, false))
    else None
  }

  /** One more than the last word of the buffer that a callback reads. */
  function WordsRead(c: Callback): nat {
    match c
    case Nop => 0
    case ClearCache => 0
    case FillRect => 3
    case MonochromeTriangle => 4
    case TexturedTriangle => 7
    case MonochromeQuad => 5
    case TexturedQuad => 9
    case ShadedTriangle => 6
    case TexturedShadedTriangle => 9
    case ShadedQuad => 8
    case TexturedShadedQuad => 12
    case MonochromeLine => 3
    case MonochromePolyline => 3
    case ShadedLine => 4
    case ShadedPolyline => 4
    case MonochromeRect => 3
    case TexturedRect => 4
    case MonochromeRect1x1 => 2
    case TexturedRect8x8 => 3
    case MonochromeRect16x16 => 2
    case TexturedRect16x16 => 3
    case CopyRect => 4
    case ImageLoad => 3
    case ImageStore => 3
    case _ => 1
  }

  // ---- The table, from the bits of an opcode ----

  /** Bit `b` of an opcode, `b` being its weight. */
  predicate HasBit(op: nat, b: nat)
    requires b > 0
  {
    op / b % 2 == 1
  }

  function PolygonCallback(quad: bool, textured: bool, shaded: bool): Callback {
    if quad then
      if textured then (if shaded then TexturedShadedQuad else TexturedQuad)
      else (if shaded then ShadedQuad else MonochromeQuad)
    else
      if textured then (if shaded then TexturedShadedTriangle else TexturedTriangle)
      else (if shaded then ShadedTriangle else MonochromeTriangle)
  }

  /** Polygons have three or four vertices (bit 3), of one word or two with a texture (bit 2), and
      a color for each or for all of them (bit 4). They dither unless they are plain. Bit 0 has a
      meaning for unshaded textures only. */
  lemma PolygonTable(op: nat)
    requires 0x20 <= op < 0x40
    ensures var quad, textured, shaded := HasBit(op, 8), HasBit(op, 4), HasBit(op, 16);
      var v, t, s := if quad then 4 else 3, if textured then 1 else 0, if shaded then 1 else 0;
      Lookup(op) == if HasBit(op, 1) && !(textured && !shaded) then None
                    else Some(Info(1 + v * (1 + t) + (v - 1) * s, PolygonCallback(quad, textured, shaded), textured || shaded))
  {
  }

  /** Lines have two positions and one color or two (bit 4), and go on if bit 3 is set. */
  lemma LineTable(op: nat)
    requires 0x40 <= op < 0x60
    ensures var poly, shaded := HasBit(op, 8), HasBit(op, 16);
      Lookup(op) ==
      if HasBit(op, 1) || HasBit(op, 4) then None
      else Some(Info(if shaded then 4 else 3,
                     if poly then (if shaded then ShadedPolyline else MonochromePolyline)
                     else (if shaded then ShadedLine else MonochromeLine),
                     false))
  {
  }

  /** Rectangles have a color, a position, a texture word (bit 2) and, unless bits 3 and 4 give
      the size, a word for it. Three of the combinations are not supported. */
  lemma RectangleTable(op: nat)
    requires 0x60 <= op < 0x80
    ensures var textured, size := HasBit(op, 4), op / 8 % 4;
      Lookup(op) ==
      if (if textured then size == 1 else HasBit(op, 1) || size == 2) then None
      else Some(Info(2 + (if textured then 1 else 0) + (if size == 0 then 1 else 0),
                     if size == 0 then (if textured then TexturedRect else MonochromeRect)
                     else if size == 1 then MonochromeRect1x1
                     else if size == 2 then TexturedRect8x8
                     else if textured then TexturedRect16x16 else MonochromeRect16x16,
                     false))
  {
  }

  /** The commands outside of these ranges. */
  lemma OtherTable(op: nat)
    requires op < 0x20 || op >= 0x80
    ensures Lookup(op).Some? <==>
            op in {0x00, 0x01, 0x02, 0x80, 0xa0, 0xc0, 0xe1, 0xe2, 0xe3, 0xe4, 0xe5, 0xe6}
    ensures Lookup(op).Some? ==> !Lookup(op).value.dithers
    ensures Lookup(op).Some? ==>
      Lookup(op).value.len == if op in {0x02, 0xa0, 0xc0} then 3 else if op == 0x80 then 4 else 1
    ensures Lookup(0x00) == Some(Info(1, Nop, false)) && Lookup(0x01) == Some(Info(1, ClearCache, false))
    ensures Lookup(0x02) == Some(Info(3, FillRect, false)) && Lookup(0x80) == Some(Info(4, CopyRect, false))
    ensures Lookup(0xa0) == Some(Info(3, ImageLoad, false)) && Lookup(0xc0) == Some(Info(3, ImageStore, false))
    ensures Lookup(0xe1) == Some(Info(1, DrawMode, false)) && Lookup(0xe2) == Some(Info(1, TextureWindow, false))
    ensures Lookup(0xe3) == Some(Info(1, DrawingAreaTopLeft, false))
    ensures Lookup(0xe4) == Some(Info(1, DrawingAreaBottomRight, false))
    ensures Lookup(0xe5) == Some(Info(1, DrawingOffset, false)) && Lookup(0xe6) == Some(Info(1, MaskBitSetting, false))
  {
  }

  /** Callbacks read all of their command, if they read anything. */
  lemma CallbacksReadAll(op: nat)
    requires Lookup(op).Some?
    ensures var info := Lookup(op).value;
      WordsRead(info.callback) == if info.callback.Nop? || info.callback.ClearCache? then 0 else info.len
  {
    if op < 0x20 || op >= 0x80 {
      OtherTable(op);
    } else if op < 0x40 {
      PolygonTable(op);
    }
  }

  /** A word is its halves, and its opcode and color. */
  lemma WordFields(w: Word)
    ensures w == Low(w) + 0x1_0000 * High(w) && Low(w) < 0x1_0000 && High(w) < 0x1_0000
    ensures w == Color(w) + 0x100_0000 * Opcode(w) && Color(w) < 0x100_0000 && Opcode(w) < 0x100
  {
  }

  /** The end markers are the words with a 5 at the top of both halves. */
  lemma EndMarkers(high: nat, low: nat)
    requires high < 0x1_0000 && low < 0x1_0000
    ensures IsEndMarker(low + 0x1_0000 * high) <==> 0x5000 <= high < 0x6000 && 0x5000 <= low < 0x6000
  {
    var w := low + 0x1_0000 * high;
    DivModUnique(w, 0x1000_0000, high / 0x1000, low + 0x1_0000 * (high % 0x1000));
    DivModUnique(w, 0x1000, low / 0x1000 + 0x10 * high, low % 0x1000);
    DivModUnique(low / 0x1000 + 0x10 * high, 16, high, low / 0x1000);
  }

  datatype Blend = NoTexture | Raw | Blended

  datatype Attributes = Attributes(semiTransparent: bool, blend: Blend, dither: bool)

  function AttributesOf(op: nat, dithers: bool, drawMode: nat): Attributes {
    Attributes(op / 2 % 2 == 1,
               if op / 4 % 2 == 0 then NoTexture else if op % 2 == 1 then Raw else Blended,
               dithers && drawMode / 512 % 2 == 1)
  }

  /** Of the low bits of an opcode the first chooses raw textures, the second transparency and
      the third a texture; bit 9 of the draw mode turns dithering on. */
  lemma AttributeBits(base: nat, textured: bool, semi: bool, raw: bool, dithers: bool, low: nat, on: bool, high: nat)
    requires low < 512
    ensures var op := 8 * base + (if textured then 4 else 0) + (if semi then 2 else 0) + (if raw then 1 else 0);
      var mode := low + (if on then 512 else 0) + 1024 * high;
      AttributesOf(op, dithers, mode) ==
      Attributes(semi, if !textured then NoTexture else if raw then Raw else Blended, dithers && on)
  {
    var t, m, r := if textured then 1 else 0, if semi then 1 else 0, if raw then 1 else 0;
    var op := 8 * base + 4 * t + 2 * m + r;
    DivModUnique(op, 2, 4 * base + 2 * t + m, r);
    DivModUnique(4 * base + 2 * t + m, 2, 2 * base + t, m);
    DivModUnique(op, 4, 2 * base + t, 2 * m + r);
    DivModUnique(2 * base + t, 2, base, t);
    var d := if on then 1 else 0;
    DivModUnique(low + 512 * d + 1024 * high, 512, d + 2 * high, low);
    DivModUnique(d + 2 * high, 2, high, d);
  }

  // ---- What the renderer sees ----

  datatype Entry =
    | Executed(callback: Callback, attributes: Attributes, drawMode: nat, words: seq<Word>)
    | Line(lineAttributes: Attributes, start: Word, startColor: nat, end: Word, endColor: nat)
    | LoadImage(x: nat, y: nat, width: nat, height: nat, pixels: seq<nat>)

  // ---- The parser, a word at a time ----

  datatype Handler = Command | Parameter | MonochromeVertex | ShadedColor | ShadedVertex | ImageData

  datatype Image = Image(x: nat, y: nat, width: nat, height: nat, pixels: seq<nat>)

  const NO_IMAGE := Image(0, 0, 0, 0, [])

  datatype Port = Port(
    handler: Handler, remaining: nat, command: seq<Word>, callback: Callback, attributes: Attributes,
    prev: Word, prevColor: nat, image: Image, drawMode: nat, log: seq<Entry>)
  {
    /** Buffered and remaining words add up to the length of the command or image. */
    ghost predicate Valid() {
      match handler
      case Command => true
      case Parameter =>
        && command != [] && remaining > 0
        && Lookup(Opcode(command[0])).Some?
        && var info := Lookup(Opcode(command[0])).value;
           && |command| + remaining == info.len && callback == info.callback
           && attributes == AttributesOf(Opcode(command[0]), info.dithers, drawMode)
      case MonochromeVertex => true
      case ShadedColor => true
      case ShadedVertex => |command| == 1
      case ImageData =>
        && remaining > 0 && |image.pixels| <= VRAM_SIZE_PIXELS
        && |image.pixels| + 2 * remaining == 2 * ImageWords(image.width, image.height)
    }
  }

  /** Stopped at an unknown opcode or at an image that overflows the buffer. */
  datatype Machine = Running(port: Port) | Panicked(log: seq<Entry>) {
    function Log(): seq<Entry> {
      if Running? then port.log else log
    }

    ghost predicate Valid() {
      Running? ==> port.Valid()
    }
  }

  function ImageWords(width: nat, height: nat): nat {
    (width * height + 1) / 2
  }

  lemma WordsHoldImage(width: nat, height: nat)
    ensures width * height <= 2 * ImageWords(width, height) <= width * height + 1
  {
  }

  function Emit(p: Port, e: Entry): Port {
    p.(log := p.log + [e])
  }

  function Execute(p: Port): Port
    requires |p.command| >= WordsRead(p.callback) && p.command != []
  {
    match p.callback
    case MonochromePolyline =>
      Emit(p, Line(p.attributes, p.command[1], Color(p.command[0]), p.command[2], Color(p.command[0])))
      .(prev := p.command[2], prevColor := Color(p.command[0]), handler := MonochromeVertex)
    case ShadedPolyline =>
      Emit(p, Line(p.attributes, p.command[1], Color(p.command[0]), p.command[3], Color(p.command[2])))
      .(prev := p.command[3], prevColor := Color(p.command[2]), handler := ShadedColor)
    case ImageLoad =>
      var n := ImageWords(Low(p.command[2]), High(p.command[2]));
      if n == 0 then p
      else
        p.(remaining := n, handler := ImageData,
           image := Image(Low(p.command[1]), High(p.command[1]), Low(p.command[2]), High(p.command[2]), []))
    case DrawMode =>
      Emit(p, Executed(DrawMode, p.attributes, p.drawMode, p.command)).(drawMode := Low(p.command[0]))
    case _ => Emit(p, Executed(p.callback, p.attributes, p.drawMode, p.command))
  }

  function HandleParameter(p: Port, w: Word): Port
    requires p.remaining > 0
    requires p.remaining == 1 ==> |p.command| + 1 >= WordsRead(p.callback)
  {
    var p' := p.(command := p.command + [w], remaining := p.remaining - 1);
    if p'.remaining == 0 then Execute(p'.(handler := Command)) else p'
  }

  function HandleCommand(p: Port, w: Word): Machine {
    match Lookup(Opcode(w))
    case None => Panicked(p.log)
    case Some(info) =>
      Running(HandleParameter(
        p.(remaining := info.len, callback := info.callback, command := [], handler := Parameter,
           attributes := AttributesOf(Opcode(w), info.dithers, p.drawMode)), w))
  }

  function HandleImage(p: Port, w: Word): Machine
    requires p.Valid() && p.handler.ImageData?
  {
    if |p.image.pixels| + 2 > VRAM_SIZE_PIXELS then Panicked(p.log)
    else
      var image := p.image.(pixels := p.image.pixels + [Low(w), High(w)]);
      var p' := p.(image := image, remaining := p.remaining - 1);
      Running(
        if p'.remaining > 0 then p'
        else
          WordsHoldImage(image.width, image.height);
          Emit(p', LoadImage(image.x, image.y, image.width, image.height, image.pixels[..image.width * image.height]))
          .(image := NO_IMAGE, handler := Command))
  }

  function Step(p: Port, w: Word): Machine
    requires p.Valid()
  {
    match p.handler
    case Command => HandleCommand(p, w)
    case Parameter =>
      Running(HandleParameter(p, w))
    case MonochromeVertex =>
      Running(
        if IsEndMarker(w) then p.(handler := Command)
        else Emit(p, Line(p.attributes, p.prev, p.prevColor, w, p.prevColor)).(prev := w))
    case ShadedColor =>
      Running(
        if IsEndMarker(w) then p.(handler := Command)
        else p.(command := [w], handler := ShadedVertex))
    case ShadedVertex =>
      Running(
        Emit(p, Line(p.attributes, p.prev, p.prevColor, w, Color(p.command[0])))
        .(prev := w, prevColor := Color(p.command[0]), handler := ShadedColor))
    case ImageData => HandleImage(p, w)
  }

  /** The parser never loses count, and no callback finds its command incomplete. */
  lemma StepKeepsValid(p: Port, w: Word)
    requires p.Valid()
    ensures Step(p, w).Valid()
  {
    match p.handler
    case Command => CommandKeepsValid(p, w);
    case Parameter => ParameterKeepsValid(p, w);
    case ImageData => ImageKeepsValid(p, w);
    case _ =>
  }

  lemma ParameterKeepsValid(p: Port, w: Word)
    requires p.Valid() && p.handler.Parameter?
    ensures |p.command| + 1 >= WordsRead(p.callback) || p.remaining > 1
    ensures HandleParameter(p, w).Valid()
  {
    var c := p.command + [w];
    assert c[0] == p.command[0];
    if p.remaining == 1 {
      ExecuteKeepsValid(p.(command := c, remaining := 0, handler := Command));
    }
  }

  lemma ExecuteKeepsValid(p: Port)
    requires |p.command| >= WordsRead(p.callback) && p.command != [] && p.handler.Command?
    ensures Execute(p).Valid()
  {
  }

  lemma CommandKeepsValid(p: Port, w: Word)
    requires p.Valid() && p.handler.Command?
    ensures HandleCommand(p, w).Valid()
  {
    if Lookup(Opcode(w)).Some? {
      var info := Lookup(Opcode(w)).value;
      if info.len == 1 {
        ExecuteKeepsValid(p.(remaining := 0, callback := info.callback, command := [] + [w], handler := Command,
                             attributes := AttributesOf(Opcode(w), info.dithers, p.drawMode)));
      }
    }
  }

  lemma ImageKeepsValid(p: Port, w: Word)
    requires p.Valid() && p.handler.ImageData?
    ensures HandleImage(p, w).Valid()
  {
  }

  function Feed(m: Machine, words: seq<Word>): (r: Machine)
    requires m.Valid()
    ensures r.Valid()
    decreases |words|
  {
    if words == [] || m.Panicked? then m
    else
      StepKeepsValid(m.port, words[0]);
      Feed(Step(m.port, words[0]), words[1..])
  }
}
