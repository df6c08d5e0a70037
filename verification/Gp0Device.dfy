/** The GP0 port as the emulator runs it, with its command and image buffers (src/gpu/mod.rs). */
module Gp0Device {
  import opened Gp0
  import opened Gp0Stream

  /** A fixed buffer for the words of one command. */
  class CommandBuffer {
    const buffer: array<Word>
    var len: nat

    constructor ()
      ensures Valid() && fresh(buffer) && Contents() == []
    {
      buffer := new Word[BUFFER_WORDS](_ => 0);
      len := 0;
    }

    ghost predicate Valid()
      reads this
    {
      buffer.Length == BUFFER_WORDS && len <= BUFFER_WORDS
    }

    ghost function Contents(): seq<Word>
      requires Valid()
      reads this, buffer
    {
      buffer[..len]
    }

    method Clear()
      requires Valid()
      modifies this
      ensures Valid() && Contents() == []
    {
      len := 0;
    }

    method PushWord(w: Word)
      requires Valid() && len < BUFFER_WORDS
      modifies this, buffer
      ensures Valid() && Contents() == old(Contents()) + [w]
    {
      buffer[len] := w;
      len := len + 1;
    }
  }

  /** Room for an image as large as the video memory. */
  class ImageBuffer {
    const buffer: array<nat>
    var x: nat
    var y: nat
    var width: nat
    var height: nat
    var index: nat

    constructor ()
      ensures Valid() && fresh(buffer) && View() == NO_IMAGE
    {
      buffer := new nat[VRAM_SIZE_PIXELS](_ => 0);
      x, y, width, height, index := 0, 0, 0, 0, 0;
    }

    ghost predicate Valid()
      reads this
    {
      buffer.Length == VRAM_SIZE_PIXELS && index <= VRAM_SIZE_PIXELS
    }

    ghost function View(): Image
      requires Valid()
      reads this, buffer
    {
      Image(x, y, width, height, buffer[..index])
    }

    method Reset(x: nat, y: nat, width: nat, height: nat)
      requires Valid()
      modifies this
      ensures Valid() && View() == Image(x, y, width, height, [])
    {
      this.x, this.y, this.width, this.height, index := x, y, width, height, 0;
    }

    method PushGp0Word(w: Word)
      requires Valid() && index + 2 <= VRAM_SIZE_PIXELS
      modifies this, buffer
      ensures Valid() && View() == old(View()).(pixels := old(View()).pixels + [Low(w), High(w)])
      ensures index == old(index) + 2 && width == old(width) && height == old(height)
    {
      buffer[index] := Low(w);
      index := index + 1;
      buffer[index] := High(w);
      index := index + 1;
    }

    /** The pixels of the image, without the padding of an odd number. */
    method Pixels() returns (pixels: seq<nat>)
      requires Valid() && width * height <= index
      ensures pixels == View().pixels[..width * height]
    {
      pixels := buffer[..width * height];
    }
  }

  class Gpu {
    var handler: Handler
    var remaining: nat
    const command: CommandBuffer
    var callback: Callback
    var attributes: Attributes
    var prev: Word
    var prevColor: nat
    const image: ImageBuffer
    var drawMode: nat
    var log: seq<Entry>

    constructor ()
      ensures Valid() && View().handler.Command? && View().log == [] && View().drawMode == 0
    {
      handler, remaining, callback := Command, 0, Nop;
      attributes, prev, prevColor := Attributes(false, NoTexture, false), 0, 0;
      drawMode, log := 0, [];
      command := new CommandBuffer();
      image := new ImageBuffer();
    }

    ghost function Repr(): set<object> {
      {this, command, command.buffer, image, image.buffer}
    }

    ghost predicate Sound()
      reads Repr()
    {
      && command.Valid() && image.Valid()
      && command.buffer as object != image.buffer as object
    }

    ghost function View(): Port
      requires Sound()
      reads Repr()
    {
      Port(handler, remaining, command.Contents(), callback, attributes, prev, prevColor, image.View(), drawMode, log)
    }

    ghost predicate Valid()
      reads Repr()
    {
      Sound() && View().Valid()
    }

    /** The device did what the parser says; `ok` is false where it gives up. */
    ghost predicate Follows(m: Machine, ok: bool)
      reads Repr()
    {
      match m
      case Panicked(_) => !ok
      case Running(p) => ok && Sound() && View() == p
    }

    method PushLine(start: Word, startColor: nat, end: Word, endColor: nat)
      requires Sound()
      modifies `log
      ensures Sound() && View() == Emit(old(View()), Line(attributes, start, startColor, end, endColor))
    {
      log := log + [Line(attributes, start, startColor, end, endColor)];
    }

    /** Runs the callback of a complete command. */
    method RunCallback()
      requires Sound() && |View().command| >= WordsRead(callback) && View().command != []
      modifies this, image
      ensures Sound() && View() == Execute(old(View()))
    {
      var words := command.buffer[..command.len];
      match callback {
        case MonochromePolyline =>
          PushLine(words[1], Color(words[0]), words[2], Color(words[0]));
          prev, prevColor, handler := words[2], Color(words[0]), MonochromeVertex;
        case ShadedPolyline =>
          PushLine(words[1], Color(words[0]), words[3], Color(words[2]));
          prev, prevColor, handler := words[3], Color(words[2]), ShadedColor;
        case ImageLoad =>
          StartImage(words[1], words[2]);
        case DrawMode =>
          log := log + [Executed(DrawMode, attributes, drawMode, words)];
          drawMode := Low(words[0]);
        case _ =>
          log := log + [Executed(callback, attributes, drawMode, words)];
      }
    }

    method StartImage(pos: Word, size: Word)
      requires Sound()
      modifies `remaining, `handler, image
      ensures Sound()
      ensures var n := ImageWords(Low(size), High(size));
        View() == if n == 0 then old(View()).(remaining := old(remaining))
                  else old(View()).(remaining := n, handler := ImageData,
                                    image := Image(Low(pos), High(pos), Low(size), High(size), []))
    {
      var n := ImageWords(Low(size), High(size));
      if n > 0 {
        remaining := n;
        image.Reset(Low(pos), High(pos), Low(size), High(size));
        handler := ImageData;
      }
    }

    method HandleParameterWord(w: Word)
      requires Sound() && remaining > 0 && command.len < BUFFER_WORDS
      requires remaining == 1 ==> |View().command| + 1 >= WordsRead(callback)
      modifies Repr()
      ensures Sound() && View() == HandleParameter(old(View()), w)
    {
      command.PushWord(w);
      remaining := remaining - 1;
      if remaining == 0 {
        handler := Command;
        RunCallback();
      }
    }

    method HandleCommandWord(w: Word) returns (ok: bool)
      requires Sound() && handler.Command?
      modifies Repr()
      ensures Follows(HandleCommand(old(View()), w), ok)
    {
      var info := Lookup(Opcode(w));
      if info.None? {
        return false;
      }
      remaining, callback := info.value.len, info.value.callback;
      attributes := AttributesOf(Opcode(w), info.value.dithers, drawMode);
      command.Clear();
      handler := Parameter;
      HandleParameterWord(w);
      return true;
    }

    method HandleImageWord(w: Word) returns (ok: bool)
      requires Valid() && handler.ImageData?
      modifies Repr()
      ensures Follows(HandleImage(old(View()), w), ok)
    {
      if image.index + 2 > VRAM_SIZE_PIXELS {
        return false;
      }
      WordsHoldImage(image.width, image.height);
      assert image.index + 2 * remaining == 2 * ImageWords(image.width, image.height) by {
        assert |View().image.pixels| == image.index;
      }
      image.PushGp0Word(w);
      remaining := remaining - 1;
      if remaining == 0 {
        assert image.index == 2 * ImageWords(image.width, image.height);
        var pixels := image.Pixels();
        log := log + [LoadImage(image.x, image.y, image.width, image.height, pixels)];
        image.Reset(0, 0, 0, 0);
        handler := Command;
      }
      return true;
    }

    method HandleWord(w: Word) returns (ok: bool)
      requires Valid()
      modifies Repr()
      ensures Follows(Step(old(View()), w), ok)
      ensures ok ==> Valid()
    {
      StepKeepsValid(View(), w);
      ok := true;
      match handler {
        case Command =>
          ok := HandleCommandWord(w);
        case Parameter =>
          HandleParameterWord(w);
        case MonochromeVertex =>
          if IsEndMarker(w) {
            handler := Command;
          } else {
            PushLine(prev, prevColor, w, prevColor);
            prev := w;
          }
        case ShadedColor =>
          if IsEndMarker(w) {
            handler := Command;
          } else {
            command.Clear();
            command.PushWord(w);
            handler := ShadedVertex;
          }
        case ShadedVertex =>
          var color := Color(command.buffer[0]);
          PushLine(prev, prevColor, w, color);
          prev, prevColor, handler := w, color, ShadedColor;
        case ImageData =>
          ok := HandleImageWord(w);
      }
    }

    /** Any words, from any state. */
    method HandleWords(words: seq<Word>) returns (ok: bool)
      requires Valid()
      modifies Repr()
      ensures Follows(Feed(Running(old(View())), words), ok)
      ensures ok ==> Valid()
    {
      ghost var p := View();
      for i := 0 to |words|
        invariant Valid() && Feed(Running(View()), words[i..]) == Feed(Running(p), words)
      {
        ok := HandleWord(words[i]);
        assert words[i..][0] == words[i] && words[i..][1..] == words[i + 1..];
        if !ok {
          return;
        }
      }
      ok := true;
    }

    /** A whole stream, word by word: the renderer is told what the stream means. */
    method HandleStream(words: seq<Word>) returns (ok: bool)
      requires Valid() && handler.Command?
      modifies Repr()
      ensures ok == !Parse(old(drawMode), words).stuck
      ensures ok ==> Valid() && log == old(log) + Parse(old(drawMode), words).log
    {
      StreamAgrees(View(), words);
      ok := HandleWords(words);
    }
  }
}
