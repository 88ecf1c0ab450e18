/** The animation engine's display state and the two arms of its event
    loop that change it: a new animation (update) and a frame-timer tick.
    The loop's local counter i is the field counter here, since each arm
    is a method of its own. */
module TermDraw {
  import opened Frames
  import opened Display
  import Cursor

  class Term {
    /** The index of the frame drawn last. */
    var curr: nat
    /** The converted frames of the current animation. */
    var images: seq<ImageData>
    /** The glyph drawn at opaque cells. */
    var ch: char
    /** The event loop's frame counter i. */
    var counter: nat
    /** The images the frames were converted from, in the same order. */
    ghost var sources: seq<Image>

    /** Every frame is the conversion of its source image, so its grid has
        the frame's bounds; with frames present, the counter is in 0..n. */
    ghost predicate Valid()
      reads this, set f | f in images :: f.data
    {
      |sources| == |images| &&
      (forall k :: 0 <= k < |images| ==> images[k].ConvertedFrom(sources[k])) &&
      (|images| > 0 ==> counter <= |images|)
    }

    /** A new engine: no frames, cursor 0, and the loop's counter at 0. */
    constructor ()
      ensures Valid()
      ensures curr == 0 && counter == 0 && images == [] && sources == [] && ch == '\0'
    {
      curr, images, ch, counter := 0, [], '\0', 0;
      sources := [];
    }

    /** Replaces the frame list with one converted frame per image, in
        order, and sets the glyph. */
    method ProcessImages(imgs: seq<Image>, glyph: char)
      modifies this`ch, this`images, this`sources
      ensures ch == glyph && sources == imgs && |images| == |imgs|
      ensures forall k :: 0 <= k < |imgs| ==> images[k].ConvertedFrom(imgs[k])
    {
      ch := glyph;
      images := [];
      sources := [];
      for k := 0 to |imgs|
        invariant ch == glyph && |images| == k && sources == imgs[..k]
        invariant forall j :: 0 <= j < k ==> images[j].ConvertedFrom(imgs[j])
      {
        var f := ConvertImage(imgs[k]);
        images := images + [f];
        sources := sources + [imgs[k]];
      }
    }

    /** Draws frame curr: with no frames nothing happens; otherwise the
        viewport is cleared, the glyph is written at every cell inside the
        frame that is opaque, and the buffer is flushed once. */
    method Draw(screen: Terminal)
      requires Valid()
      requires |images| > 0 ==> curr < |images|
      modifies screen.cells, screen`flushes
      ensures Valid()
      ensures |images| == 0 ==> unchanged(screen, screen.cells)
      ensures |images| > 0 ==> screen.flushes == old(screen.flushes) + 1
      ensures |images| > 0 ==> forall y: nat, x: nat :: y < screen.Height() && x < screen.Width() ==>
                screen.cells[y, x] == (if images[curr].Covers(x, y) then ch else Blank)
      ensures |images| > 0 ==> forall y: nat, x: nat :: y < screen.Height() && x < screen.Width() ==>
                screen.cells[y, x] == Pixel(sources[curr], ch, x, y)
    {
      if |images| == 0 {
        return;
      }
      var w, h := screen.Size();
      screen.Clear();
      var f := images[curr];
      for y := 0 to h
        invariant screen.flushes == old(screen.flushes)
        invariant forall yy: nat, xx: nat :: yy < h && xx < w ==>
                    screen.cells[yy, xx] == (if yy < y && f.Covers(xx, yy) then ch else Blank)
      {
        for x := 0 to w
          invariant screen.flushes == old(screen.flushes)
          invariant forall yy: nat, xx: nat :: yy < h && xx < w ==>
                      screen.cells[yy, xx] == (if (yy < y || (yy == y && xx < x)) && f.Covers(xx, yy) then ch else Blank)
        {
          if f.yMax > y && f.xMax > x && f.data[y, x] {
            screen.SetCell(x, y, ch);
          }
        }
      }
      screen.Flush();
      forall y: nat, x: nat | y < h && x < w
        ensures screen.cells[y, x] == Pixel(sources[curr], ch, x, y)
      {
        CoversPixel(f, sources[curr], ch, x, y);
      }
    }

    /** The update arm: reset the counter, then load the new frames. */
    method Update(imgs: seq<Image>, glyph: char)
      modifies this`counter, this`ch, this`images, this`sources
      ensures Valid()
      ensures counter == 0 && ch == glyph && sources == imgs && |images| == |imgs|
      ensures forall k :: 0 <= k < |imgs| ==> images[k].ConvertedFrom(imgs[k])
    {
      counter := 0;
      ProcessImages(imgs, glyph);
    }

    /** The tick arm: wrap the counter at the number of frames, copy it
        into curr, draw, and advance the counter. */
    method Tick(screen: Terminal)
      requires Valid()
      modifies this`curr, this`counter, screen.cells, screen`flushes
      ensures Valid()
      ensures images == old(images) && sources == old(sources) && ch == old(ch)
      ensures Cursor.Tick(curr, counter) == Cursor.Step(old(counter), |images|)
      ensures |images| == 0 ==> unchanged(screen, screen.cells)
      ensures |images| > 0 ==> curr < |images| && screen.flushes == old(screen.flushes) + 1
      ensures |images| > 0 ==> forall y: nat, x: nat :: y < screen.Height() && x < screen.Width() ==>
                screen.cells[y, x] == Pixel(sources[curr], ch, x, y)
    {
      if counter == |images| {
        counter := 0;
      }
      curr := counter;
      Draw(screen);
      counter := counter + 1;
    }

    /** k ticks in a row, returning the value of curr at each draw. With
        no frames the screen is never touched; with frames there is one
        flush per tick and the screen shows the frame drawn last. */
    method TickTimes(screen: Terminal, k: nat) returns (drawn: seq<nat>)
      requires Valid()
      modifies this`curr, this`counter, screen.cells, screen`flushes
      ensures Valid()
      ensures images == old(images) && sources == old(sources) && ch == old(ch)
      ensures drawn == Cursor.Shown(old(counter), |images|, k)
      ensures counter == Cursor.After(old(counter), |images|, k)
      ensures |images| == 0 ==> unchanged(screen, screen.cells)
      ensures |images| > 0 ==> screen.flushes == old(screen.flushes) + k
      ensures |images| > 0 && k > 0 ==>
                (drawn[k - 1] < |images| &&
                 forall y: nat, x: nat :: y < screen.Height() && x < screen.Width() ==>
                   screen.cells[y, x] == Pixel(sources[drawn[k - 1]], ch, x, y))
    {
      drawn := [];
      for t := 0 to k
        invariant Valid()
        invariant images == old(images) && sources == old(sources) && ch == old(ch)
        invariant drawn == Cursor.Shown(old(counter), |images|, t)
        invariant counter == Cursor.After(old(counter), |images|, t)
        invariant t > 0 ==> curr == drawn[t - 1]
        invariant |images| == 0 ==> unchanged(screen, screen.cells)
        invariant |images| > 0 ==> screen.flushes == old(screen.flushes) + t
        invariant |images| > 0 && t > 0 ==>
                    (curr < |images| &&
                     forall y: nat, x: nat :: y < screen.Height() && x < screen.Width() ==>
                       screen.cells[y, x] == Pixel(sources[curr], ch, x, y))
      {
        Cursor.ShownSnoc(old(counter), |images|, t);
        Tick(screen);
        drawn := drawn + [curr];
      }
    }
  }

  /** An update followed by a tick shows the first new image, whatever the
      cursor was before. */
  method UpdateThenTick(t: Term, screen: Terminal, imgs: seq<Image>, glyph: char)
    requires t.Valid() && |imgs| > 0
    modifies t, screen.cells, screen
    ensures t.Valid() && t.curr == 0 && t.counter == 1
    ensures t.ch == glyph && t.sources == imgs && |t.images| == |imgs|
    ensures screen.flushes == old(screen.flushes) + 1
    ensures forall y: nat, x: nat :: y < screen.Height() && x < screen.Width() ==>
              screen.cells[y, x] == Pixel(imgs[0], glyph, x, y)
  {
    t.Update(imgs, glyph);
    t.Tick(screen);
  }

  /** An update with no images does not blank the display: the next tick
      draws nothing, so the frame drawn last stays on screen. */
  method EmptyUpdateThenTick(t: Term, screen: Terminal, glyph: char)
    requires t.Valid()
    modifies t, screen.cells, screen
    ensures t.Valid() && t.images == [] && t.ch == glyph
    ensures t.curr == 0 && t.counter == 1
    ensures unchanged(screen, screen.cells)
  {
    t.Update([], glyph);
    t.Tick(screen);
  }

  /** A single 2x2 image with alpha rows [0, 255] and [255, 0], loaded
      with '*' into a new engine and drawn by one tick on a w by h
      viewport: the glyph lands at (1, 0) and (0, 1) only. */
  method DiagonalExample(w: nat, h: nat) returns (screen: Terminal)
    ensures screen.Width() == w && screen.Height() == h && screen.flushes == 1
    ensures forall y: nat, x: nat :: y < h && x < w ==>
              screen.cells[y, x] == (if (x == 1 && y == 0) || (x == 0 && y == 1) then '*' else Blank)
  {
    var img := Image(2, 2, (x: nat, y: nat) => if x != y then 255 else 0);
    var t := new Term();
    screen := new Terminal(w, h);
    t.Update([img], '*');
    t.Tick(screen);
    assert t.curr == 0 && t.sources == [img];
  }

  /** Two 1x1 frames, opaque then transparent: from an update on, the ticks
      draw the glyph at (0, 0), then a blank, then the glyph, alternating. */
  lemma AlternatingExample(glyph: char, k: nat)
    ensures var imgs := [Image(1, 1, (x: nat, y: nat) => 255), Image(1, 1, (x: nat, y: nat) => 0)];
      forall j :: 0 <= j < k ==>
        Cursor.Shown(0, 2, k)[j] < 2 &&
        Pixel(imgs[Cursor.Shown(0, 2, k)[j]], glyph, 0, 0) == (if j % 2 == 0 then glyph else Blank)
  {
    Cursor.UpdateRestartsCycle(2, k);
  }
}
