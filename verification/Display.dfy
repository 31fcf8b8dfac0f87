/** The damage-tracked double buffer of kernel/arch/x86_64/tables.c.  A pixel is addressed by row,
    column and byte; the padding between the end of a row and the next is not part of the model. */
module DisplayBuffer {
  import opened Bits
  import opened Bytes

  const ICON_SIZE: nat := 24
  const ICON_LAST: nat := 7
  const WALLPAPER_WIDTH: nat := 512
  const WALLPAPER_HEIGHT: nat := 288
  const TERMINAL_X: nat := 40
  const TERMINAL_Y: nat := 280
  const TERMINAL_WIDTH: nat := 640
  const TERMINAL_HEIGHT: nat := 400
  const BACKGROUND: nat := 0x0013_1a21
  const TRANSPARENT: nat := 0xffff_ffff
  const FOREGROUND: nat := 0x00e8_edf2
  const TERMINAL_BACKGROUND: nat := 0x0017_202e
  const TERMINAL_BAR: nat := 0x0004_77cb
  const PROMPT_CYAN: nat := 0x0000_a9df
  const PROMPT_BLUE: nat := 0x0000_5bd8
  const PROMPT_GREEN: nat := 0x0000_c5a8
  const DOLLAR: byte := 0x24

  /** A half-open rectangle of pixels. */
  datatype Rect = Rect(left: nat, top: nat, right: nat, bottom: nat)

  predicate Inside(r: Rect, y: int, x: int) {
    r.top <= y < r.bottom && r.left <= x < r.right
  }

  /** The damage recorded so far. */
  datatype Damage = Clean | Dirty(rect: Rect)

  predicate Damaged(d: Damage, y: int, x: int) { d.Dirty? && Inside(d.rect, y, x) }

  function Min(a: nat, b: nat): nat { if a < b then a else b }
  function Max(a: nat, b: nat): nat { if a < b then b else a }

  /** The smallest rectangle that holds the old damage and `r`. */
  function Grow(d: Damage, r: Rect): Damage {
    match d
    case Clean => Dirty(r)
    case Dirty(s) => Dirty(Rect(Min(s.left, r.left), Min(s.top, r.top), Max(s.right, r.right), Max(s.bottom, r.bottom)))
  }

  /** `r` clipped to a screen that holds its top left corner. */
  function Clip(left: nat, top: nat, width: nat, height: nat, screenWidth: nat, screenHeight: nat): Rect
    requires left <= screenWidth && top <= screenHeight
  {
    Rect(left, top, left + Min(width, screenWidth - left), top + Min(height, screenHeight - top))
  }

  /** The grown damage holds nothing that a rectangle around both would not hold. */
  lemma GrowLeast(d: Damage, r: Rect, around: Rect)
    requires around.left <= r.left && around.top <= r.top && r.right <= around.right && r.bottom <= around.bottom
    requires d.Dirty? ==>
               && around.left <= d.rect.left && around.top <= d.rect.top
               && d.rect.right <= around.right && d.rect.bottom <= around.bottom
    ensures forall y, x :: Damaged(Grow(d, r), y, x) ==> Inside(around, y, x)
  {
  }

  /** Clipping keeps exactly the pixels of the rectangle that are on the screen. */
  lemma ClipIs(left: nat, top: nat, width: nat, height: nat, screenWidth: nat, screenHeight: nat, y: int, x: int)
    requires left <= screenWidth && top <= screenHeight
    ensures Inside(Clip(left, top, width, height, screenWidth, screenHeight), y, x) <==>
            top <= y < top + height && left <= x < left + width && 0 <= y < screenHeight && 0 <= x < screenWidth
  {
  }

  lemma GrowCovers(d: Damage, r: Rect, y: int, x: int)
    ensures Damaged(d, y, x) || Inside(r, y, x) ==> Damaged(Grow(d, r), y, x)
  {
  }

  // ---- colours ----

  function Alpha(color: nat): (a: nat)
    ensures 1 <= a <= 255
  {
    if color / 0x100_0000 % 256 == 0 then 255 else color / 0x100_0000 % 256
  }

  /** The part of a 0xRRGGBB colour that byte `c` of a pixel holds. */
  function Part(color: nat, rgbx: bool, c: nat): byte {
    if c == 1 then color / 0x100 % 256
    else if (c == 0) == rgbx then color / 0x1_0000 % 256
    else color % 256
  }

  function Blend(over: byte, under: byte, alpha: nat): byte
    requires alpha <= 255
  {
    BlendBound(over, under, alpha);
    (over * alpha + under * (255 - alpha)) / 255
  }

  /** The three low bytes of a pixel are the colour, lowest byte first; on the other kind of screen, highest first. */
  lemma PartsAre(color: nat)
    ensures Part(color, false, 0) + 0x100 * Part(color, false, 1) + 0x1_0000 * Part(color, false, 2)
            == color % 0x100_0000
    ensures Part(color, true, 2) + 0x100 * Part(color, true, 1) + 0x1_0000 * Part(color, true, 0)
            == color % 0x100_0000
  {
    ThreeBytes(color);
  }

  lemma ThreeBytes(n: nat)
    ensures n % 256 + 0x100 * (n / 0x100 % 256) + 0x1_0000 * (n / 0x1_0000 % 256) == n % 0x100_0000
  {
    assert n / 0x100 / 0x100 == n / 0x1_0000;
    assert n / 0x1_0000 == 256 * (n / 0x100_0000) + n / 0x1_0000 % 256;
  }

  /** Blending is the weighted mean, rounded down: all of the upper colour at 255, all of the lower at 0, and never
      outside the two. */
  lemma BlendIs(over: byte, under: byte, alpha: nat)
    requires alpha <= 255
    ensures var mean := over * alpha + under * (255 - alpha);
            255 * Blend(over, under, alpha) <= mean < 255 * (Blend(over, under, alpha) + 1)
    ensures Blend(over, under, 255) == over && Blend(over, under, 0) == under
    ensures over <= under ==> over <= Blend(over, under, alpha) <= under
    ensures under <= over ==> under <= Blend(over, under, alpha) <= over
  {
    var mean := over * alpha + under * (255 - alpha);
    assert mean == 255 * under + (over - under) * alpha;
    assert mean == 255 * over + (under - over) * (255 - alpha);
    if over <= under {
      Product(under - over, alpha);
      Product(under - over, 255 - alpha);
    } else {
      Product(over - under, alpha);
      Product(over - under, 255 - alpha);
    }
  }

  lemma BlendBound(over: byte, under: byte, alpha: nat)
    requires alpha <= 255
    ensures 0 <= (over * alpha + under * (255 - alpha)) / 255 < 256
  {
    Product(over, alpha);
    Product(under, 255 - alpha);
  }

  lemma Product(x: byte, y: nat)
    ensures 0 <= x * y <= 255 * y
  {
  }

  /** What filling with `color` makes of byte `c` of a pixel. */
  function Filled(color: nat, rgbx: bool, c: nat, under: byte): byte {
    if c == 3 then 0
    else if Alpha(color) == 255 then Part(color, rgbx, c)
    else Blend(Part(color, rgbx, c), under, Alpha(color))
  }

  /** A colour without transparency replaces what was there, lowest byte first, or highest first on the other kind
      of screen. */
  lemma FilledOpaque(color: nat, under: byte)
    requires color / 0x100_0000 % 256 in {0, 255}
    ensures Filled(color, false, 0, under) + 0x100 * Filled(color, false, 1, under)
            + 0x1_0000 * Filled(color, false, 2, under) == color % 0x100_0000
    ensures Filled(color, true, 2, under) + 0x100 * Filled(color, true, 1, under)
            + 0x1_0000 * Filled(color, true, 0, under) == color % 0x100_0000
    ensures Filled(color, false, 3, under) == Filled(color, true, 3, under) == 0
  {
    PartsAre(color);
    hide Part;
  }

  lemma FilledOver(color: nat, rgbx: bool, c: nat, under: byte, other: byte)
    requires color / 0x100_0000 % 256 in {0, 255}
    ensures Filled(color, rgbx, c, under) == Filled(color, rgbx, c, other)
  {
  }

  /** Any other is mixed in by its highest byte. */
  lemma FilledMixed(color: nat, rgbx: bool, c: nat, under: byte)
    requires 0 < color / 0x100_0000 % 256 < 255 && c < 3
    ensures var alpha, mixed := color / 0x100_0000 % 256, Filled(color, rgbx, c, under);
            255 * mixed <= Part(color, rgbx, c) * alpha + under * (255 - alpha) < 255 * (mixed + 1)
  {
    BlendIs(Part(color, rgbx, c), under, Alpha(color));
    hide Blend;
    hide Part;
  }

  /** The screens for which `quanta_arch_display_initialize` sets up a framebuffer; without one, no drawing
      call does anything. */
  predicate Admitted(width: nat, height: nat) { 640 <= width <= 4096 && 480 <= height <= 2160 }

  class Display {
    const width: nat
    const height: nat
    const bytes: nat
    const rgbx: bool
    const pageFlip: bool
    const back: array3<byte>
    const scanout: array3<byte>
    const font: seq<byte>
    const wallpaper: seq<byte>
    const icons: seq<byte>
    var frontY: nat
    var damage: Damage

    constructor (width: nat, height: nat, bytes: nat, rgbx: bool, pageFlip: bool, back: array3<byte>,
                 scanout: array3<byte>,
                 font: seq<byte>, wallpaper: seq<byte>, icons: seq<byte>)
      requires Admitted(width, height) && bytes in {3, 4} && |font| == 4096
      requires back.Length0 == height && back.Length1 == width && back.Length2 == bytes
      requires scanout.Length0 == (if pageFlip then 2 * height else height) && scanout.Length1 == width
               && scanout.Length2 == bytes
      requires back != scanout
      ensures Valid() && Coherent() && damage == Dirty(Rect(0, 0, width, height)) && frontY == 0
      ensures this.back == back && this.scanout == scanout && this.width == width && this.height == height
              && this.bytes == bytes
      ensures this.pageFlip == pageFlip && this.rgbx == rgbx
    {
      this.width, this.height, this.bytes, this.rgbx, this.pageFlip := width, height, bytes, rgbx, pageFlip;
      this.back, this.scanout, this.font, this.wallpaper, this.icons := back, scanout, font, wallpaper, icons;
      frontY := 0;
      damage := Dirty(Rect(0, 0, width, height));
    }

    ghost predicate Valid()
      reads this
    {
      && Admitted(width, height) && bytes in {3, 4} && |font| == 4096
      && back.Length0 == height && back.Length1 == width && back.Length2 == bytes
      && scanout.Length0 == (if pageFlip then 2 * height else height) && scanout.Length1 == width
      && scanout.Length2 == bytes
      && back != scanout
      && (frontY == 0 || (pageFlip && frontY == height))
      && (damage.Dirty? ==>
            damage.rect.left <= damage.rect.right <= width && damage.rect.top <= damage.rect.bottom <= height)
    }

    /** The first scanout row of each page. */
    predicate PageStart(p: nat) { p == 0 || (pageFlip && p == height) }

    /** Outside the damage every scanout page shows the back buffer. */
    ghost predicate Coherent()
      requires Valid()
      reads this, back, scanout
    {
      forall p: nat, y, x, c ::
        PageStart(p) && 0 <= y < height && 0 <= x < width && 0 <= c < bytes && !Damaged(damage, y, x)
        ==> scanout[p + y, x, c] == back[y, x, c]
    }

    /** Every scanout page shows the whole back buffer. */
    ghost predicate Synced()
      requires Valid()
      reads this, back, scanout
    {
      forall p: nat, y, x, c :: PageStart(p) && 0 <= y < height && 0 <= x < width && 0 <= c < bytes
                           ==> scanout[p + y, x, c] == back[y, x, c]
    }

    /** A drawing operation changed pixels of the back buffer only, all of them inside the damage,
        and recorded at least the damage there was. */
    twostate predicate Drawn()
      requires old(Valid()) && Valid()
      reads this, back
    {
      && frontY == old(frontY)
      && (forall y, x :: Damaged(old(damage), y, x) ==> Damaged(damage, y, x))
      && forall y, x, c :: 0 <= y < height && 0 <= x < width && 0 <= c < bytes && !Damaged(damage, y, x)
                           ==> back[y, x, c] == old(back[y, x, c])
    }

    /** Damage tracking keeps the pages coherent. */
    twostate lemma DrawnKeepsCoherent()
      requires old(Valid()) && Valid() && old(Coherent()) && Drawn()
      requires forall y, x, c :: 0 <= y < scanout.Length0 && 0 <= x < width && 0 <= c < bytes ==>
                 scanout[y, x, c] == old(scanout[y, x, c])
      ensures Coherent()
    {
    }

    /** `framebuffer_mark_dirty` */
    method MarkDirty(left: nat, top: nat, width_: nat, height_: nat)
      requires Valid()
      modifies this`damage
      ensures Valid()
      ensures damage == if width_ == 0 || height_ == 0 || left >= width || top >= height then old(damage)
                        else Grow(old(damage), Clip(left, top, width_, height_, width, height))
    {
      if width_ == 0 || height_ == 0 || left >= width || top >= height { return; }
      var w := if width_ > width - left then width - left else width_;
      var h := if height_ > height - top then height - top else height_;
      Extend(Rect(left, top, left + w, top + h));
    }

    /** The bookkeeping that `framebuffer_mark_dirty` and `framebuffer_fill_rect` both spell out. */
    method Extend(r: Rect)
      requires Valid() && r.left <= r.right <= width && r.top <= r.bottom <= height
      modifies this`damage
      ensures Valid() && damage == Grow(old(damage), r)
    {
      match damage {
        case Clean => damage := Dirty(r);
        case Dirty(d) =>
          var left, top, right, bottom := d.left, d.top, d.right, d.bottom;
          if r.left < left { left := r.left; }
          if r.top < top { top := r.top; }
          if r.right > right { right := r.right; }
          if r.bottom > bottom { bottom := r.bottom; }
          damage := Dirty(Rect(left, top, right, bottom));
      }
    }

    /** One row of `framebuffer_fill_rect`. */
    method FillRow(y: nat, left: nat, count: nat, color: nat)
      requires Valid() && y < height && left + count <= width
      modifies back
      ensures forall v, x, c :: 0 <= v < height && 0 <= x < width && 0 <= c < bytes ==>
                back[v, x, c] == if v == y && left <= x < left + count then Filled(color, rgbx, c, old(back[v, x, c]))
                                 else old(back[v, x, c])
    {
      var alpha := color / 0x100_0000 % 256;
      if alpha == 0 { alpha := 255; }
      var red, blue := if rgbx then 0 else 2, if rgbx then 2 else 0;
      var column := 0;
      while column < count
        invariant 0 <= column <= count
        invariant forall v, x, c :: 0 <= v < height && 0 <= x < width && 0 <= c < bytes ==>
                    back[v, x, c] == if v == y && left <= x < left + column
                                     then Filled(color, rgbx, c, old(back[v, x, c]))
                                     else old(back[v, x, c])
      {
        var x := left + column;
        if alpha == 255 {
          back[y, x, red] := color / 0x1_0000 % 256;
          back[y, x, 1] := color / 0x100 % 256;
          back[y, x, blue] := color % 256;
        } else {
          back[y, x, red] := Blend(color / 0x1_0000 % 256, back[y, x, red], alpha);
          back[y, x, 1] := Blend(color / 0x100 % 256, back[y, x, 1], alpha);
          back[y, x, blue] := Blend(color % 256, back[y, x, blue], alpha);
        }
        if bytes == 4 { back[y, x, 3] := 0; }
        column := column + 1;
      }
    }

    /** `framebuffer_fill_rect` */
    method FillRect(left: nat, top: nat, width_: nat, height_: nat, color: nat)
      requires Valid() && Coherent()
      modifies this`damage, back
      ensures Valid() && Coherent() && Drawn()
      ensures left >= width || top >= height ==> damage == old(damage)
      ensures left >= width || top >= height ==>
                (forall y, x, c :: 0 <= y < height && 0 <= x < width && 0 <= c < bytes ==>
                   back[y, x, c] == old(back[y, x, c]))
      ensures left < width && top < height ==>
                var r := Clip(left, top, width_, height_, width, height);
                && damage == Grow(old(damage), r)
                && forall y, x, c :: 0 <= y < height && 0 <= x < width && 0 <= c < bytes ==>
                     back[y, x, c] == if Inside(r, y, x) then Filled(color, rgbx, c, old(back[y, x, c]))
                                      else old(back[y, x, c])
    {
      if left >= width || top >= height { return; }
      var w := if width_ > width - left then width - left else width_;
      var h := if height_ > height - top then height - top else height_;
      var r := Rect(left, top, left + w, top + h);
      Extend(r);
      var row := 0;
      while row < h
        invariant 0 <= row <= h
        invariant Valid() && damage == Grow(old(damage), r) && frontY == old(frontY)
        invariant forall y, x, c :: 0 <= y < height && 0 <= x < width && 0 <= c < bytes ==>
                    back[y, x, c] == if top <= y < top + row && left <= x < left + w
                                     then Filled(color, rgbx, c, old(back[y, x, c]))
                                     else old(back[y, x, c])
      {
        FillRow(top + row, left, w, color);
        row := row + 1;
      }
      forall y, x
        ensures Damaged(old(damage), y, x) || Inside(r, y, x) ==> Damaged(damage, y, x)
      {
        GrowCovers(old(damage), r, y, x);
      }
      DrawnKeepsCoherent();
    }

    // ---- presenting ----

    /** `framebuffer_copy_dirty`: the damaged part of the back buffer, to the page that starts at row `page`. */
    method CopyDirty(page: nat, r: Rect)
      requires Valid() && PageStart(page) && r.left <= r.right <= width && r.top <= r.bottom <= height
      modifies scanout
      ensures forall y, x, c :: 0 <= y < scanout.Length0 && 0 <= x < width && 0 <= c < bytes ==>
                scanout[y, x, c] == if page <= y && Inside(r, y - page, x) then back[y - page, x, c]
                                    else old(scanout[y, x, c])
    {
      var row := r.top;
      while row < r.bottom
        invariant r.top <= row <= r.bottom
        invariant forall y, x, c :: 0 <= y < scanout.Length0 && 0 <= x < width && 0 <= c < bytes ==>
                    scanout[y, x, c] == if page <= y && Inside(Rect(r.left, r.top, r.right, row), y - page, x)
                                        then back[y - page, x, c]
                                        else old(scanout[y, x, c])
      {
        CopyRow(page, row, r.left, r.right);
        row := row + 1;
      }
    }

    method CopyRow(page: nat, row: nat, left: nat, right: nat)
      requires Valid() && PageStart(page) && row < height && left <= right <= width
      modifies scanout
      ensures forall y, x, c :: 0 <= y < scanout.Length0 && 0 <= x < width && 0 <= c < bytes ==>
                scanout[y, x, c] == if y == page + row && left <= x < right then back[row, x, c]
                                    else old(scanout[y, x, c])
    {
      var x := left;
      while x < right
        invariant left <= x <= right
        invariant forall v, u, c :: 0 <= v < scanout.Length0 && 0 <= u < width && 0 <= c < bytes ==>
                    scanout[v, u, c] == if v == page + row && left <= u < x then back[row, u, c]
                                        else old(scanout[v, u, c])
      {
        var c := 0;
        while c < bytes
          invariant 0 <= c <= bytes
          invariant forall v, u, d :: 0 <= v < scanout.Length0 && 0 <= u < width && 0 <= d < bytes ==>
                      scanout[v, u, d] == if v == page + row && (left <= u < x || (u == x && d < c))
                                          then back[row, u, d] else old(scanout[v, u, d])
        {
          scanout[page + row, x, c] := back[row, x, c];
          c := c + 1;
        }
        x := x + 1;
      }
    }

    /** `quanta_arch_desktop_present`; `retrace` and `flipped` are the display's answers.  Success
        makes every page show the back buffer.  Both failure returns keep the pages coherent and the
        damage recorded; no return changes the back buffer. */
    method Present(retrace: bool, flipped: bool) returns (ok: bool)
      requires Valid() && Coherent()
      modifies this`damage, this`frontY, scanout
      ensures Valid() && Coherent()
      ensures ok ==> Synced() && damage == Clean
      ensures !ok ==> damage == old(damage) && frontY == old(frontY)
      ensures ok <==> old(damage) == Clean || !pageFlip || (retrace && flipped)
      ensures ok && old(damage).Dirty? && pageFlip ==> frontY == height - old(frontY)
    {
      if damage == Clean { return true; }
      var r := damage.rect;
      if pageFlip {
        var backY := if frontY == 0 then height else 0;
        CopyDirty(backY, r);
        if !retrace { return false; }
        if !flipped { return false; }
        CopyDirty(frontY, r);
        frontY := backY;
      } else {
        CopyDirty(0, r);
      }
      damage := Clean;
      ok := true;
    }

    // ---- the other drawing operations ----

    /** `framebuffer_fill_rounded_rect`: rows of `framebuffer_fill_rect`, shortened at the corners; the sums
        of coordinates are 32-bit. */
    method FillRoundedRect(left: nat, top: nat, width_: nat, height_: nat, radius: nat, color: nat)
      requires Valid() && Coherent() && height_ < B32 && radius < RADIUS_LIMIT
      modifies this`damage, back
      ensures Valid() && Coherent() && Drawn()
      ensures forall y, x, c :: 0 <= y < height && 0 <= x < width && 0 <= c < bytes ==>
                back[y, x, c] == if Rounded(left, top, width_, height_, radius, y, x)
                                 then Filled(color, rgbx, c, old(back[y, x, c]))
                                 else old(back[y, x, c])
    {
      hide Inset;
      hide EdgeOf;
      hide RowOf;
      hide Filled;
      if !HasCorners(width_, height_, radius) { return; }
      var row: nat := 0;
      while row < height_
        invariant 0 <= row <= height_
        invariant Valid() && Coherent() && Drawn()
        invariant forall y, x, c :: 0 <= y < height && 0 <= x < width && 0 <= c < bytes ==>
                    back[y, x, c] == if RowOf(top, y) < row && InRow(left, width_, height_, radius, RowOf(top, y), x)
                                     then Filled(color, rgbx, c, old(back[y, x, c]))
                                     else old(back[y, x, c])
      {
        RoundedRow(left, top, width_, height_, radius, color, row);
        row := row + 1;
      }
    }

    /** One row of a rounded rectangle. */
    method RoundedRow(left: nat, top: nat, width_: nat, height_: nat, radius: nat, color: nat, row: nat)
      requires Valid() && Coherent() && row < height_ < B32 && HasCorners(width_, height_, radius)
      modifies this`damage, back
      ensures Valid() && Coherent() && Drawn()
      ensures forall y, x, c :: 0 <= y < height && 0 <= x < width && 0 <= c < bytes ==>
                back[y, x, c] == if RowOf(top, y) == row && InRow(left, width_, height_, radius, row, x)
                                 then Filled(color, rgbx, c, old(back[y, x, c]))
                                 else old(back[y, x, c])
    {
      hide Inset;
      hide RowOf;
      hide Filled;
      var edge := EdgeOf(height_, radius, row);
      var inset := 0;
      if edge != 0 {
        inset := FindInset(radius, edge);
      }
      InsetZero(radius);
      assert inset == Inset(radius, edge) <= radius;
      forall y: nat | y < height
        ensures RowOf(top, y) == row <==> y == (top + row) % B32
      {
        RowIs(top, y, row);
      }
      FillRect((left + inset) % B32, (top + row) % B32, width_ - inset * 2, 1, color);
    }

    /** The corner loop of `framebuffer_fill_rounded_rect`. */
    static method FindInset(radius: nat, edge: nat) returns (inset: nat)
      requires 0 < edge < radius
      ensures inset == Inset(radius, edge) <= radius
    {
      inset := 0;
      var candidate := 0;
      while candidate <= radius
        invariant 0 <= candidate <= radius + 1
        invariant InsetFrom(radius, edge, 0) == InsetFrom(radius, edge, candidate)
        invariant inset == 0
      {
        var dx, dy := radius - candidate, edge;
        if dx * dx + dy * dy <= radius * radius {
          inset := candidate;
          break;
        }
        candidate := candidate + 1;
      }
      InsetBound(radius, edge, 0);
    }

    /** One row of `framebuffer_draw_wallpaper`. */
    method WallpaperRow(y: nat, left: nat, right: nat)
      requires Valid() && y < height && left <= right <= width && |wallpaper| == WALLPAPER_BYTES
      modifies back
      ensures forall v, x, c :: 0 <= v < height && 0 <= x < width && 0 <= c < bytes ==>
                back[v, x, c] == if v == y && left <= x < right
                                 then WallpaperByte(wallpaper, width, height, rgbx, y, x, c)
                                 else old(back[v, x, c])
    {
      hide Scaled;
      var x := left;
      while x < right
        invariant left <= x <= right
        invariant forall v, u, c :: 0 <= v < height && 0 <= u < width && 0 <= c < bytes ==>
                    back[v, u, c] == if v == y && left <= u < x
                                     then WallpaperByte(wallpaper, width, height, rgbx, y, u, c)
                                     else old(back[v, u, c])
      {
        var sourceY, sourceX := Scaled(y, WALLPAPER_HEIGHT, height), Scaled(x, WALLPAPER_WIDTH, width);
        var source := WALLPAPER_WIDTH * WALLPAPER_HEIGHT + (wallpaper[sourceY * WALLPAPER_WIDTH + sourceX] as nat) * 4;
        back[y, x, 0] := if rgbx then wallpaper[source] else wallpaper[source + 2];
        back[y, x, 1] := wallpaper[source + 1];
        back[y, x, 2] := if rgbx then wallpaper[source + 2] else wallpaper[source];
        if bytes == 4 { back[y, x, 3] := 0; }
        x := x + 1;
      }
    }

    /** The row loop of `framebuffer_draw_wallpaper`. */
    method WallpaperRows(ghost r: Rect, left: nat, top: nat, w: nat, h: nat)
      requires Valid() && r == Rect(left, top, left + w, top + h) && r.right <= width && r.bottom <= height
               && |wallpaper| == WALLPAPER_BYTES
      modifies back
      ensures forall y, x, c :: 0 <= y < height && 0 <= x < width && 0 <= c < bytes ==>
                back[y, x, c] == if Inside(r, y, x) then WallpaperByte(wallpaper, width, height, rgbx, y, x, c)
                                 else old(back[y, x, c])
    {
      hide WallpaperByte;
      var y := top;
      while y < top + h
        invariant top <= y <= top + h
        invariant forall v, x, c :: 0 <= v < height && 0 <= x < width && 0 <= c < bytes ==>
                    back[v, x, c] == if v < y && Inside(r, v, x)
                                     then WallpaperByte(wallpaper, width, height, rgbx, v, x, c)
                                     else old(back[v, x, c])
      {
        WallpaperRow(y, left, left + w);
        y := y + 1;
      }
    }

    /** `framebuffer_draw_wallpaper`; an empty size asks for the whole screen. */
    method DrawWallpaper(left: nat, top: nat, width_: nat, height_: nat)
      requires Valid() && Coherent()
      modifies this`damage, back
      ensures Valid() && Coherent() && Drawn()
      ensures forall y, x, c :: 0 <= y < height && 0 <= x < width && 0 <= c < bytes ==>
                back[y, x, c] == if |wallpaper| == WALLPAPER_BYTES
                                    && Inside(WallpaperArea(left, top, width_, height_, width, height), y, x)
                                 then WallpaperByte(wallpaper, width, height, rgbx, y, x, c) else old(back[y, x, c])
    {
      hide WallpaperByte;
      hide Grow;
      hide WallpaperArea;
      WallpaperAreaIs(left, top, width_, height_, width, height);
      if |wallpaper| != WALLPAPER_BYTES { return; }
      var l, t, w, h := left, top, width_, height_;
      if w == 0 || h == 0 { l, t, w, h := 0, 0, width, height; }
      if l >= width || t >= height { return; }
      if w > width - l { w := width - l; }
      if h > height - t { h := height - t; }
      MarkDirty(l, t, w, h);
      ghost var r := Rect(l, t, l + w, t + h);
      assert r == WallpaperArea(left, top, width_, height_, width, height);
      forall y, x
        ensures Damaged(old(damage), y, x) || Inside(r, y, x) ==> Damaged(damage, y, x)
      {
        GrowCovers(old(damage), r, y, x);
      }
      WallpaperRows(r, l, t, w, h);
      DrawnKeepsCoherent();
    }

    /** One row of `framebuffer_draw_icon`; `source` indexes the first word of the row in the atlas. */
    method IconRow(y: nat, left: nat, count: nat, source: nat)
      requires Valid() && y < height && left + count <= width && source + 4 * count <= |icons|
      modifies back
      ensures forall v, x, c :: 0 <= v < height && 0 <= x < width && 0 <= c < bytes ==>
                back[v, x, c] == if v == y && left <= x < left + count
                                 then IconByte(icons, source + 4 * (x - left), rgbx, c, old(back[v, x, c]))
                                 else old(back[v, x, c])
    {
      var x := 0;
      while x < count
        invariant 0 <= x <= count
        invariant forall v, u, c :: 0 <= v < height && 0 <= u < width && 0 <= c < bytes ==>
                    back[v, u, c] == if v == y && left <= u < left + x
                                     then IconByte(icons, source + 4 * (u - left), rgbx, c, old(back[v, u, c]))
                                     else old(back[v, u, c])
      {
        var alpha := icons[source + 4 * x + 3];
        if alpha != 0 {
          var red := Blend(0xdc, back[y, left + x, if rgbx then 0 else 2], alpha);
          var green := Blend(0xee, back[y, left + x, 1], alpha);
          var blue := Blend(0xff, back[y, left + x, if rgbx then 2 else 0], alpha);
          back[y, left + x, 0] := if rgbx then red else blue;
          back[y, left + x, 1] := green;
          back[y, left + x, 2] := if rgbx then blue else red;
        }
        x := x + 1;
      }
    }

    /** `framebuffer_draw_icon`.  The atlas is read without a gap between rows, also when the icon is
        cut off at the right edge. */
    method DrawIcon(left: nat, top: nat, icon: nat)
      requires Valid() && Coherent()
      modifies this`damage, back
      ensures Valid() && Coherent() && Drawn()
      ensures forall y, x, c :: 0 <= y < height && 0 <= x < width && 0 <= c < bytes ==>
                back[y, x, c] ==
                if icon <= ICON_LAST && |icons| == ATLAS_BYTES && left < width && top < height
                   && Inside(Clip(left, top, ICON_SIZE, ICON_SIZE, width, height), y, x)
                then IconByte(icons, AtlasIndex(icon, Min(ICON_SIZE, width - left), y - top) + 4 * (x - left), rgbx, c,
                              old(back[y, x, c]))
                else old(back[y, x, c])
    {
      if icon > ICON_LAST || |icons| != ATLAS_BYTES || left >= width || top >= height { return; }
      var w := if width - left < ICON_SIZE then width - left else ICON_SIZE;
      var h := if height - top < ICON_SIZE then height - top else ICON_SIZE;
      MarkDirty(left, top, w, h);
      ghost var r := Rect(left, top, left + w, top + h);
      forall y, x
        ensures Damaged(old(damage), y, x) || Inside(r, y, x) ==> Damaged(damage, y, x)
      {
        GrowCovers(old(damage), r, y, x);
      }
      hide AtlasIndex;
      hide IconByte;
      IconRows(r, left, top, w, h, icon);
      DrawnKeepsCoherent();
    }

    /** The row loop of `framebuffer_draw_icon`. */
    method IconRows(ghost r: Rect, left: nat, top: nat, w: nat, h: nat, icon: nat)
      requires Valid() && r == Rect(left, top, left + w, top + h) && r.right <= width && r.bottom <= height
      requires icon <= ICON_LAST && |icons| == ATLAS_BYTES && w <= ICON_SIZE && h <= ICON_SIZE
      modifies back
      ensures forall y, x, c :: 0 <= y < height && 0 <= x < width && 0 <= c < bytes ==>
                back[y, x, c] == if Inside(r, y, x)
                                 then IconByte(icons, AtlasIndex(icon, w, y - top) + 4 * (x - left), rgbx, c,
                                               old(back[y, x, c]))
                                 else old(back[y, x, c])
    {
      var source := ICON_BYTES * icon;
      AtlasStart(icon, w);
      var y := 0;
      hide AtlasIndex;
      hide IconByte;
      while y < h
        invariant 0 <= y <= h && source == AtlasIndex(icon, w, y)
        invariant forall v, x, c :: 0 <= v < height && 0 <= x < width && 0 <= c < bytes ==>
                    back[v, x, c] == if v < top + y && Inside(r, v, x)
                                     then IconByte(icons, AtlasIndex(icon, w, v - top) + 4 * (x - left), rgbx, c,
                                                   old(back[v, x, c]))
                                     else old(back[v, x, c])
      {
        RowFits(icon, y, w, h);
        IconRow(top + y, left, w, source);
        source := source + 4 * w;
        y := y + 1;
      }
    }

    /** One pixel row of a glyph. */
    method GlyphRow(y: nat, left: nat, bits: byte, foreground: nat, background: nat, scale: nat)
      requires Valid() && y < height && 0 < scale <= 8 && left + 8 * scale <= width
      modifies back
      ensures forall v, x, c :: 0 <= v < height && 0 <= x < width && 0 <= c < bytes ==>
                back[v, x, c] == if v == y && left <= x < left + 8 * scale
                                 then GlyphByte(bits, Cell(x, left, scale),
                                                foreground, background, c, old(back[v, x, c])) else old(back[v, x, c])
    {
      var column := 0;
      hide Cell;
      hide GlyphByte;
      while column < 8
        invariant 0 <= column <= 8
        invariant forall v, x, c :: 0 <= v < height && 0 <= x < width && 0 <= c < bytes ==>
                    back[v, x, c] == if v == y && left <= x < left + column * scale
                                     then GlyphByte(bits, Cell(x, left, scale),
                                                    foreground, background, c, old(back[v, x, c]))
                                                    else old(back[v, x, c])
      {
        ColumnFits(column, scale);
        GlyphCell(y, left + column * scale, scale, bits, column, foreground, background);
        forall x | left + column * scale <= x < left + (column + 1) * scale
          ensures Cell(x, left, scale) == column
        {
          CellOf(column, scale, x, left);
        }
        column := column + 1;
      }
    }

    method GlyphCell(y: nat, at: nat, scale: nat, bits: byte, column: nat, foreground: nat, background: nat)
      requires Valid() && y < height && at + scale <= width && column < 8
      modifies back
      ensures forall v, x, c :: 0 <= v < height && 0 <= x < width && 0 <= c < bytes ==>
                back[v, x, c] == if v == y && at <= x < at + scale
                                 then GlyphByte(bits, column,
                                                foreground, background, c, old(back[v, x, c])) else old(back[v, x, c])
    {
      var lit := FontBit(bits, column);
      var color := if lit then foreground else background;
      var repeat := 0;
      while repeat < scale
        invariant 0 <= repeat <= scale
        invariant forall v, x, c :: 0 <= v < height && 0 <= x < width && 0 <= c < bytes ==>
                    back[v, x, c] == if v == y && at <= x < at + repeat
                                     then GlyphByte(bits, column,
                                                    foreground, background, c, old(back[v, x, c]))
                                                    else old(back[v, x, c])
      {
        if lit || background != TRANSPARENT {
          back[y, at + repeat, 0] := color % 256;
          back[y, at + repeat, 1] := color / 0x100 % 256;
          back[y, at + repeat, 2] := color / 0x1_0000 % 256;
          if bytes == 4 { back[y, at + repeat, 3] := 0; }
        }
        repeat := repeat + 1;
      }
    }

    /** One row of the font: `scale` rows of pixels from `at` on. */
    method GlyphBand(at: nat, left: nat, bits: byte, foreground: nat, background: nat, scale: nat)
      requires Valid() && 0 < scale <= 8 && left + 8 * scale <= width && at + scale <= height
      modifies back
      ensures forall v, x, c :: 0 <= v < height && 0 <= x < width && 0 <= c < bytes ==>
                back[v, x, c] == if at <= v < at + scale && left <= x < left + 8 * scale
                                 then GlyphByte(bits, Cell(x, left, scale), foreground, background, c,
                                                old(back[v, x, c]))
                                 else old(back[v, x, c])
    {
      hide Cell;
      hide GlyphByte;
      for repeat := 0 to scale
        invariant forall v, x, c :: 0 <= v < height && 0 <= x < width && 0 <= c < bytes ==>
                    back[v, x, c] == if at <= v < at + repeat && left <= x < left + 8 * scale
                                     then GlyphByte(bits, Cell(x, left, scale), foreground, background, c,
                                                    old(back[v, x, c]))
                                     else old(back[v, x, c])
      {
        GlyphRow(at + repeat, left, bits, foreground, background, scale);
      }
    }

    /** The font rows of a glyph, one band below the other. */
    method GlyphBands(left: nat, top: nat, character: byte, foreground: nat, background: nat, scale: nat)
      requires Valid() && 0 < scale <= 8 && left + 8 * scale <= width && top + 16 * scale <= height
      modifies back
      ensures forall y, x, c :: 0 <= y < height && 0 <= x < width && 0 <= c < bytes ==>
                back[y, x, c] == if Inside(Rect(left, top, left + 8 * scale, top + 16 * scale), y, x)
                                 then GlyphByte(FontRow(font, character, Cell(y, top, scale)), Cell(x, left, scale),
                                                foreground, background, c, old(back[y, x, c]))
                                 else old(back[y, x, c])
    {
      hide Cell;
      hide GlyphByte;
      var row: nat := 0;
      while row < 16
        invariant 0 <= row <= 16
        invariant forall y, x, c :: 0 <= y < height && 0 <= x < width && 0 <= c < bytes ==>
                    back[y, x, c] == if top <= y < top + row * scale && left <= x < left + 8 * scale
                                     then GlyphByte(FontRow(font, character, Cell(y, top, scale)), Cell(x, left, scale),
                                                    foreground, background, c, old(back[y, x, c]))
                                     else old(back[y, x, c])
      {
        GlyphRowFits(row, scale);
        GlyphBand(top + row * scale, left, font[character * 16 + row], foreground, background, scale);
        forall y | top + row * scale <= y < top + row * scale + scale
          ensures Cell(y, top, scale) == row
        {
          CellOf(row, scale, y, top);
        }
        row := row + 1;
      }
    }

    /** `framebuffer_draw_glyph_color`, for coordinates that do not wrap in 32 bits. */
    method DrawGlyph(left: nat, top: nat, character: byte, foreground: nat, background: nat, scale: nat)
      requires Valid() && Coherent() && left + 64 < B32 && top + 128 < B32
      modifies this`damage, back
      ensures Valid() && Coherent() && Drawn()
      ensures forall y, x, c :: 0 <= y < height && 0 <= x < width && 0 <= c < bytes ==>
                back[y, x, c] ==
                if 0 < scale <= 8 && left + 8 * scale <= width && top + 16 * scale <= height
                   && Inside(Rect(left, top, left + 8 * scale, top + 16 * scale), y, x)
                then GlyphByte(FontRow(font, character, Cell(y, top, scale)), Cell(x, left, scale),
                               foreground, background, c, old(back[y, x, c]))
                else old(back[y, x, c])
    {
      if scale == 0 || scale > 8 || left + 8 * scale > width || top + 16 * scale > height { return; }
      hide Cell;
      hide GlyphByte;
      hide FontRow;
      MarkDirty(left, top, 8 * scale, 16 * scale);
      ghost var r := Rect(left, top, left + 8 * scale, top + 16 * scale);
      forall y, x
        ensures Damaged(old(damage), y, x) || Inside(r, y, x) ==> Damaged(damage, y, x)
      {
        GrowCovers(old(damage), r, y, x);
      }
      GlyphBands(left, top, character, foreground, background, scale);
      DrawnKeepsCoherent();
    }

    /** One row of the move in `framebuffer_scroll`. */
    method MoveRow(to: nat, from: nat, left: nat, count: nat)
      requires Valid() && to < from < height && left + count <= width
      modifies back
      ensures forall v, x, c :: 0 <= v < height && 0 <= x < width && 0 <= c < bytes ==>
                back[v, x, c] == if v == to && left <= x < left + count then old(back[from, x, c])
                                 else old(back[v, x, c])
    {
      var x := 0;
      while x < count
        invariant 0 <= x <= count
        invariant forall v, u, c :: 0 <= v < height && 0 <= u < width && 0 <= c < bytes ==>
                    back[v, u, c] == if v == to && left <= u < left + x then old(back[from, u, c])
                                     else old(back[v, u, c])
      {
        var c := 0;
        while c < bytes
          invariant 0 <= c <= bytes
          invariant forall v, u, d :: 0 <= v < height && 0 <= u < width && 0 <= d < bytes ==>
                      back[v, u, d] == if v == to && left <= u && (u < left + x || (u == left + x && d < c))
                                       then old(back[from, u, d])
                                       else old(back[v, u, d])
        {
          back[to, left + x, c] := back[from, left + x, c];
          c := c + 1;
        }
        x := x + 1;
      }
    }

    /** `framebuffer_scroll`, which assumes that the terminal area fits the screen. */
    method Scroll()
      requires Valid() && Coherent() && TERMINAL_X + TERMINAL_WIDTH <= width && TERMINAL_Y + TERMINAL_HEIGHT <= height
      modifies this`damage, back
      ensures Valid() && Coherent() && Drawn()
      ensures forall y, x, c :: 0 <= y < height && 0 <= x < width && 0 <= c < bytes ==>
                back[y, x, c] ==
                if !Inside(Rect(TERMINAL_X, TERMINAL_Y,
                                TERMINAL_X + TERMINAL_WIDTH, TERMINAL_Y + TERMINAL_HEIGHT), y, x)
                then old(back[y, x, c])
                else if y + 16 < TERMINAL_Y + TERMINAL_HEIGHT then old(back[y + 16, x, c])
                else Filled(BACKGROUND, rgbx, c, old(back[y, x, c]))
    {
      MarkDirty(TERMINAL_X, TERMINAL_Y, TERMINAL_WIDTH, TERMINAL_HEIGHT);
      ghost var r := Rect(TERMINAL_X, TERMINAL_Y, TERMINAL_X + TERMINAL_WIDTH, TERMINAL_Y + TERMINAL_HEIGHT);
      Extend(Rect(TERMINAL_X, TERMINAL_Y, TERMINAL_X + TERMINAL_WIDTH, TERMINAL_Y + TERMINAL_HEIGHT));
      forall y, x
        ensures Damaged(old(damage), y, x) || Inside(r, y, x) ==> Damaged(damage, y, x)
      {
        GrowCovers(old(damage), r, y, x);
        GrowCovers(Grow(old(damage), r), r, y, x);
      }
      ghost var marked := damage;
      var row := 0;
      while row < TERMINAL_HEIGHT - 16
        invariant 0 <= row <= TERMINAL_HEIGHT - 16
        invariant Valid() && damage == marked && frontY == old(frontY)
        invariant forall y, x, c :: 0 <= y < height && 0 <= x < width && 0 <= c < bytes ==>
                    back[y, x, c] == if Inside(Rect(r.left, r.top, r.right, r.top + row), y, x)
                                     then old(back[y + 16, x, c])
                                     else old(back[y, x, c])
      {
        MoveRow(TERMINAL_Y + row, TERMINAL_Y + row + 16, TERMINAL_X, TERMINAL_WIDTH);
        row := row + 1;
      }
      DrawnKeepsCoherent();
      FillRect(TERMINAL_X, TERMINAL_Y + TERMINAL_HEIGHT - 16, TERMINAL_WIDTH, 16, BACKGROUND);
    }

    // ---- what the commands paint ----

    /** What a glyph makes of byte `c` of the pixel at `y`, `x`. */
    function GlyphPixel(left: nat, top: nat, character: byte, foreground: nat, background: nat, scale: nat,
                        y: int, x: int, c: nat, under: byte): byte
      requires |font| == 4096
    {
      if 0 < scale <= 8 && left + 8 * scale <= width && top + 16 * scale <= height
         && Inside(Rect(left, top, left + 8 * scale, top + 16 * scale), y, x)
      then GlyphByte(FontRow(font, character, Cell(y, top, scale)), Cell(x, left, scale), foreground, background, c,
                     under)
      else under
    }

    /** The same for the first `n` characters of a text, later ones over earlier ones. */
    function TextPixel(left: nat, top: nat, text: seq<byte>, n: nat, color: nat, scale: nat, y: int, x: int, c: nat,
                       under: byte): byte
      requires |font| == 4096 && n <= |text|
    {
      if n == 0 then under
      else GlyphPixel(GlyphStart(left, n - 1, scale), top, text[n - 1], color, TRANSPARENT, scale, y, x, c,
                      TextPixel(left, top, text, n - 1, color, scale, y, x, c, under))
    }

    /** What one stroke makes of byte `c` of the pixel at `y`, `x`. */
    function StrokePixel(stroke: Stroke, y: nat, x: nat, c: nat, under: byte): byte
      requires |font| == 4096
    {
      match stroke
      case Box(left, top, w, h, color) =>
        if left < width && top < height && Inside(Clip(left, top, w, h, width, height), y, x)
        then Filled(color, rgbx, c, under) else under
      case Glyph(left, top, character, foreground, background, scale) =>
        GlyphPixel(left, top, character, foreground, background, scale, y, x, c, under)
    }

    /** The same for the first `n` strokes, later ones over earlier ones. */
    function StrokesPixel(strokes: seq<Stroke>, n: nat, y: nat, x: nat, c: nat, under: byte): byte
      requires |font| == 4096 && n <= |strokes|
    {
      if n == 0 then under else StrokePixel(strokes[n - 1], y, x, c, StrokesPixel(strokes, n - 1, y, x, c, under))
    }

    lemma {:induction false} StrokesSame(a: seq<Stroke>, b: seq<Stroke>, n: nat, y: nat, x: nat, c: nat, under: byte)
      requires |font| == 4096 && n <= |a| && n <= |b| && a[..n] == b[..n]
      ensures StrokesPixel(a, n, y, x, c, under) == StrokesPixel(b, n, y, x, c, under)
    {
      if n > 0 {
        assert a[n - 1] == a[..n][n - 1] == b[..n][n - 1] == b[n - 1];
        assert a[..n - 1] == a[..n][..n - 1] == b[..n - 1];
        StrokesSame(a, b, n - 1, y, x, c, under);
      }
    }

    lemma {:induction false} StrokesOnto(a: seq<Stroke>, b: seq<Stroke>, n: nat, y: nat, x: nat, c: nat, under: byte)
      requires |font| == 4096 && n <= |b|
      ensures StrokesPixel(a + b, |a| + n, y, x, c, under)
                == StrokesPixel(b, n, y, x, c, StrokesPixel(a, |a|, y, x, c, under))
    {
      hide StrokePixel;
      if n == 0 {
        StrokesSame(a + b, a, |a|, y, x, c, under);
      } else {
        StrokesOnto(a, b, n - 1, y, x, c, under);
      }
    }

    /** Strokes painted in two goes. */
    lemma StrokesConcat(a: seq<Stroke>, b: seq<Stroke>)
      requires |font| == 4096
      ensures forall y: nat, x: nat, c: nat, under :: StrokesPixel(a + b, |a + b|, y, x, c, under)
                                                      == StrokesPixel(b, |b|, y, x, c,
                                                                      StrokesPixel(a, |a|, y, x, c, under))
    {
      forall y: nat, x: nat, c: nat, under
        ensures StrokesPixel(a + b, |a + b|, y, x, c, under)
                  == StrokesPixel(b, |b|, y, x, c, StrokesPixel(a, |a|, y, x, c, under))
      {
        StrokesOnto(a, b, |b|, y, x, c, under);
      }
    }

    // ---- the terminal prompt ----

    function PromptScale(): (scale: nat)
      ensures 2 <= scale <= 6
    {
      if width / 360 < 2 then 2 else if width / 360 > 6 then 6 else width / 360
    }

    function PromptX(): nat { width * 13 % B32 / 100 }
    function PromptY(): nat { height / 5 }
    function PromptLine(): nat { (PromptY() + 16 * PromptScale() + 20) % B32 }
    function InputX(): nat { (PromptX() + 16 * PromptScale()) % B32 }
    function InputY(): nat { (PromptLine() + 8) % B32 }

    /** The empty terminal with its bar. */
    function Terminal(): seq<Stroke> {
      [Box(0, 0, width, height, TERMINAL_BACKGROUND), Box(0, 0, 10, height, TERMINAL_BAR),
       Box(0, height * 54 % B32 / 100, 10, 12, TERMINAL_BACKGROUND)]
    }

    /** Characters of the text from `from` on, side by side from `left` on. */
    function Typed(text: seq<byte>, from: nat, n: nat, left: nat, top: nat, color: nat): (strokes: seq<Stroke>)
      requires from + n <= |text|
      ensures |strokes| == n
    {
      seq(n, i requires 0 <= i < n =>
          Glyph((left + i * 8 * PromptScale()) % B32, top, text[from + i], color, TERMINAL_BACKGROUND, PromptScale()))
    }

    /** The bracket and the dollar sign in front of the input. */
    function Bracket(): seq<Stroke> {
      var left := if PromptX() > 72 then PromptX() - 72 else 12;
      var size := 16 * PromptScale() + 16;
      [Box(left, PromptLine(), 4, size, PROMPT_GREEN), Box(left, PromptLine(), 64, 4, PROMPT_GREEN),
       Box(left, (PromptLine() + size - 4) % B32, 64, 4, PROMPT_GREEN),
       Glyph((PromptX() - 24) % B32, InputY(), DOLLAR, PROMPT_BLUE, TERMINAL_BACKGROUND, PromptScale())]
    }

    /** Where `n` characters of input end. */
    function InputEnd(n: nat): nat { (InputX() + n * 8 * PromptScale()) % B32 }

    /** The frame of the cursor behind the input. */
    function CursorBox(inputX: nat): seq<Stroke> {
      var left := (inputX + 8) % B32;
      var w, h := 6 * PromptScale(), 16 * PromptScale();
      [Box(left, InputY(), w, 2, FOREGROUND), Box(left, (InputY() + h - 2) % B32, w, 2, FOREGROUND),
       Box(left, InputY(), 2, h, FOREGROUND), Box((left + w - 2) % B32, InputY(), 2, h, FOREGROUND)]
    }

    /** `framebuffer_draw_terminal_prompt`: the directory, which ends at the first dollar sign, the prompt,
        the input behind the dollar sign and the cursor. */
    function PromptStrokes(text: seq<byte>): seq<Stroke> {
      var d := Dollar(text, 0);
      var from := InputFrom(text, d);
      Terminal() + Typed(text, 0, d, PromptX(), PromptY(), PROMPT_CYAN) + Bracket()
      + Typed(text, from, |text| - from, InputX(), InputY(), FOREGROUND) + CursorBox(InputEnd(|text| - from))
    }

    /** On every admitted screen no coordinate of a prompt comes near the end of 32 bits. */
    lemma PromptFits(text: seq<byte>)
      requires Admitted(width, height) && |text| <= TEXT_MAX
      ensures FitsAll(PromptStrokes(text))
    {
      hide FitsAll;
      hide Typed;
      hide Terminal;
      hide Bracket;
      hide CursorBox;
      hide Dollar;
      var d := Dollar(text, 0);
      var from := InputFrom(text, d);
      var a, b := Terminal(), Typed(text, 0, d, PromptX(), PromptY(), PROMPT_CYAN);
      var e, f := Bracket(), Typed(text, from, |text| - from, InputX(), InputY(), FOREGROUND);
      PromptFrame(InputEnd(|text| - from));
      TypedFits(text, 0, d, PromptX(), PromptY(), PROMPT_CYAN);
      TypedFits(text, from, |text| - from, InputX(), InputY(), FOREGROUND);
      FitsJoin(a, b);
      FitsJoin(a + b, e);
      FitsJoin(a + b + e, f);
      FitsJoin(a + b + e + f, CursorBox(InputEnd(|text| - from)));
    }

    lemma PromptFrame(inputX: nat)
      requires Admitted(width, height)
      ensures 24 < PromptX() < 1024 && PromptY() < 1024 && InputX() < 1024 && InputY() < 1024
      ensures FitsAll(Terminal()) && FitsAll(Bracket()) && FitsAll(CursorBox(inputX))
    {
    }

    /** Where a prompt stands on an admitted screen: at 13 per cent of the width and a fifth of the height, in
        letters of a 360th of the width, but of two to six pixels for each of theirs; the input 20 pixels below
        the directory, two letters in, and eight pixels down. */
    lemma PromptPlaces(n: nat)
      requires Admitted(width, height) && n <= TEXT_MAX
      ensures var scale := PromptScale();
              && scale == Min(6, Max(2, width / 360))
              && 100 * PromptX() <= 13 * width < 100 * (PromptX() + 1)
              && 5 * PromptY() <= height < 5 * (PromptY() + 1)
              && PromptLine() == PromptY() + 16 * scale + 20
              && InputX() == PromptX() + 16 * scale && InputY() == PromptLine() + 8
              && InputEnd(n) == InputX() + 8 * n * scale
    {
      PromptCorner();
      PromptLines();
      hide PromptX;
      hide PromptY;
      hide PromptLine;
      hide InputX;
      hide InputY;
      var advance := 8 * n * PromptScale();
      MulLe(8 * n, 8 * TEXT_MAX, PromptScale());
      assert n * 8 * PromptScale() == advance <= 8 * 128 * 6;
    }

    lemma PromptCorner()
      requires Admitted(width, height)
      ensures 100 * PromptX() <= 13 * width < 100 * (PromptX() + 1)
      ensures 5 * PromptY() <= height < 5 * (PromptY() + 1)
      ensures 72 < PromptX() < 1024 && PromptY() < 1024
    {
    }

    lemma PromptLines()
      requires Admitted(width, height)
      ensures PromptLine() == PromptY() + 16 * PromptScale() + 20
      ensures InputX() == PromptX() + 16 * PromptScale() && InputY() == PromptLine() + 8
      ensures InputX() < 2048 && InputY() < 2048
    {
      PromptCorner();
      hide PromptX;
      hide PromptY;
      hide PromptScale;
    }

    /** The cursor is a frame two pixels thick around a letter of six by sixteen, eight pixels behind the input. */
    lemma CursorOutlines(inputX: nat, y: nat, x: nat)
      requires Admitted(width, height) && inputX < 0x1_0000
      ensures var scale, left, top := PromptScale(), inputX + 8, InputY();
              InBoxes(CursorBox(inputX), 0xe8edf2, y, x) <==>
              && top <= y < top + 16 * scale && left <= x < left + 6 * scale
              && !(top + 2 <= y < top + 16 * scale - 2 && left + 2 <= x < left + 6 * scale - 2)
    {
      hide InBoxes;
      hide CursorBox;
      hide InputY;
      hide PromptScale;
      hide FrameBoxes;
      CursorIsFrame(inputX);
      FrameOutlines(inputX + 8, InputY(), 6 * PromptScale(), 16 * PromptScale(), FOREGROUND, y, x);
    }

    lemma CursorIsFrame(inputX: nat)
      requires Admitted(width, height) && inputX < 0x1_0000
      ensures CursorBox(inputX)
              == FrameBoxes(inputX + 8, InputY(), 6 * PromptScale(), 16 * PromptScale(), FOREGROUND)
    {
      PromptLines();
      hide PromptScale;
      hide InputY;
      hide InputX;
      hide PromptLine;
    }

    /** The bracket is 64 pixels wide, four thick, and open to the right; its dollar sign stands in front of the
        input. */
    lemma BracketOutlines(y: nat, x: nat)
      requires Admitted(width, height)
      ensures |Bracket()| == 4
      ensures var scale, top := PromptScale(), PromptLine();
              var left, size := if PromptX() > 72 then PromptX() - 72 else 12, 16 * scale + 16;
              && (InBoxes(Bracket()[..3], 0xc5a8, y, x) <==>
                  && top <= y < top + size && left <= x < left + 64
                  && (x < left + 4 || y < top + 4 || y >= top + size - 4))
              && Bracket()[3] == Glyph(PromptX() - 24, InputY(), 0x24, 0x5bd8, 0x17202e, scale)
    {
      PromptCorner();
      PromptLines();
      hide PromptX;
      hide PromptY;
      hide PromptScale;
      hide InputX;
      hide InputY;
      hide PromptLine;
      var left, top, size := if PromptX() > 72 then PromptX() - 72 else 12, PromptLine(), 16 * PromptScale() + 16;
      hide InBoxes;
      assert Bracket()[..3] == OpenBoxes(left, top, size, PROMPT_GREEN);
      assert Bracket()[3] == Glyph(PromptX() - 24, InputY(), DOLLAR, PROMPT_BLUE, TERMINAL_BACKGROUND, PromptScale());
      hide Bracket;
      hide OpenBoxes;
      OpenOutlines(left, top, size, PROMPT_GREEN, y, x);
    }

    /** The empty terminal is dark but for a bar of ten pixels at the left, with a gap of twelve at 54 per cent of
        the height. */
    lemma TerminalShows(y: nat, x: nat, c: nat, under: byte)
      requires |font| == 4096 && Admitted(width, height) && y < height && x < width
      ensures |Terminal()| == 3
      ensures StrokesPixel(Terminal(), 3, y, x, c, under)
              == Filled(if OnBar(y, x) then 0x477cb else 0x17202e, rgbx, c, under)
    {
      var t := Terminal();
      var one := StrokePixel(t[0], y, x, c, under);
      var two := StrokePixel(t[1], y, x, c, one);
      assert StrokesPixel(t, 1, y, x, c, under) == one;
      assert StrokesPixel(t, 2, y, x, c, under) == two;
      FilledOver(0x17202e, rgbx, c, two, under);
      FilledOver(0x477cb, rgbx, c, one, under);
      hide Filled;
    }

    /** On the bar and outside its gap. */
    predicate OnBar(y: nat, x: nat) {
      x < 10 && !(height * 54 / 100 <= y < height * 54 / 100 + 12)
    }

    lemma TypedFits(text: seq<byte>, from: nat, n: nat, left: nat, top: nat, color: nat)
      requires from + n <= |text| <= TEXT_MAX && left < 1024 && top < 1024
      ensures FitsAll(Typed(text, from, n, left, top, color))
    {
      hide PromptScale;
      forall i | 0 <= i < n
        ensures 0 <= left + i * 8 * PromptScale() < 8192
      {
        Columns(i, PromptScale());
      }
    }

    /** The same for a command. */
    function Painted(command: Command, y: nat, x: nat, c: nat, under: byte): byte
      requires 0 < width && 0 < height && |font| == 4096 && y < height && x < width
    {
      match command
      case Fill(left, top, w, h, color) =>
        if left < width && top < height && Inside(Clip(left, top, w, h, width, height), y, x)
        then Filled(color, rgbx, c, under) else under
      case FillRounded(left, top, w, h, radius, color) =>
        if Rounded(left, top, w, h, radius, y, x) then Filled(color, rgbx, c, under) else under
      case Text(left, top, size, text, color) =>
        if |text| > TEXT_MAX then under
        else TextPixel(left, top, text, |text|, color, if size == 0 then 1 else size, y, x, c, under)
      case Wallpaper(left, top, w, h) =>
        if |wallpaper| == WALLPAPER_BYTES && Inside(WallpaperArea(left, top, w, h, width, height), y, x)
        then WallpaperByte(wallpaper, width, height, rgbx, y, x, c) else under
      case Icon(left, top, icon) =>
        if icon <= ICON_LAST && |icons| == ATLAS_BYTES && left < width && top < height
           && Inside(Clip(left, top, ICON_SIZE, ICON_SIZE, width, height), y, x)
        then IconByte(icons, AtlasIndex(icon, Min(ICON_SIZE, width - left), y - top) + 4 * (x - left), rgbx, c, under)
        else under
      case Prompt(text) =>
        if |text| > TEXT_MAX then under else StrokesPixel(PromptStrokes(text), |PromptStrokes(text)|, y, x, c, under)
      case Unknown => under
    }

    /** Glyphs at coordinates that do not wrap in 32 bits, and radii whose squares fit a signed word. */
    predicate NoWrap(command: Command) {
      match command
      case FillRounded(_, _, _, h, radius, _) => h < B32 && radius < RADIUS_LIMIT
      case Text(x, y, size, text, _) => TextFits(x, y, text, if size == 0 then 1 else size)
      case _ => true
    }

    /** The same for the first `n` commands, later ones over earlier ones. */
    function PaintedAll(commands: seq<Command>, n: nat, y: nat, x: nat, c: nat, under: byte): byte
      requires 0 < width && 0 < height && |font| == 4096 && y < height && x < width && n <= |commands|
    {
      if n == 0 then under else Painted(commands[n - 1], y, x, c, PaintedAll(commands, n - 1, y, x, c, under))
    }

    /** One text command of `quanta_arch_desktop_draw`: a glyph per character. */
    method DrawText(left: nat, top: nat, text: seq<byte>, color: nat, scale: nat)
      requires Valid() && Coherent() && TextFits(left, top, text, scale)
      modifies this`damage, back
      ensures Valid() && Coherent() && Drawn()
      ensures forall y, x, c :: 0 <= y < height && 0 <= x < width && 0 <= c < bytes ==>
                back[y, x, c] == TextPixel(left, top, text, |text|, color, scale, y, x, c, old(back[y, x, c]))
    {
      hide GlyphByte;
      hide FontRow;
      hide Cell;
      hide GlyphStart;
      var character: nat := 0;
      while character < |text|
        invariant 0 <= character <= |text|
        invariant Valid() && Coherent() && Drawn()
        invariant forall y, x, c :: 0 <= y < height && 0 <= x < width && 0 <= c < bytes ==>
                    back[y, x, c] == TextPixel(left, top, text, character, color, scale, y, x, c, old(back[y, x, c]))
      {
        var start: nat := GlyphStart(left, character, scale);
        DrawGlyph(start, top, text[character], color, TRANSPARENT, scale);
        character := character + 1;
      }
    }

    method DrawStroke(stroke: Stroke)
      requires Valid() && Coherent() && StrokeFits(stroke)
      modifies this`damage, back
      ensures Valid() && Coherent() && Drawn()
      ensures forall y, x, c :: 0 <= y < height && 0 <= x < width && 0 <= c < bytes ==>
                back[y, x, c] == StrokePixel(stroke, y, x, c, old(back[y, x, c]))
    {
      hide Filled;
      hide Inside;
      hide Clip;
      hide GlyphByte;
      hide FontRow;
      hide Cell;
      match stroke {
        case Box(left, top, w, h, color) => FillRect(left, top, w, h, color);
        case Glyph(left, top, character, foreground, background, scale) =>
          DrawGlyph(left, top, character, foreground, background, scale);
      }
    }

    /** A row of calls, one after the other. */
    method DrawStrokes(strokes: seq<Stroke>)
      requires Valid() && Coherent() && forall i :: 0 <= i < |strokes| ==> StrokeFits(strokes[i])
      modifies this`damage, back
      ensures Valid() && Coherent() && Drawn()
      ensures forall y, x, c :: 0 <= y < height && 0 <= x < width && 0 <= c < bytes ==>
                back[y, x, c] == StrokesPixel(strokes, |strokes|, y, x, c, old(back[y, x, c]))
    {
      hide StrokePixel;
      hide StrokeFits;
      for i := 0 to |strokes|
        invariant Valid() && Coherent() && Drawn()
        invariant forall y, x, c :: 0 <= y < height && 0 <= x < width && 0 <= c < bytes ==>
                    back[y, x, c] == StrokesPixel(strokes, i, y, x, c, old(back[y, x, c]))
      {
        DrawStroke(strokes[i]);
      }
    }

    /** The loop that draws the directory and stops at the dollar sign. */
    method DrawDirectory(text: seq<byte>) returns (cursor: nat)
      requires Valid() && Coherent() && FitsAll(Typed(text, 0, Dollar(text, 0), PromptX(), PromptY(), PROMPT_CYAN))
      modifies this`damage, back
      ensures Valid() && Coherent() && Drawn()
      ensures cursor == if Dollar(text, 0) == |text| then 0 else Dollar(text, 0)
      ensures var strokes := Typed(text, 0, Dollar(text, 0), PromptX(), PromptY(), PROMPT_CYAN);
              forall y, x, c :: 0 <= y < height && 0 <= x < width && 0 <= c < bytes ==>
                back[y, x, c] == StrokesPixel(strokes, |strokes|, y, x, c, old(back[y, x, c]))
    {
      hide StrokePixel;
      hide StrokeFits;
      hide PromptX;
      hide PromptY;
      ghost var strokes := Typed(text, 0, Dollar(text, 0), PromptX(), PromptY(), PROMPT_CYAN);
      cursor := 0;
      var character: nat := 0;
      while character < |text|
        invariant 0 <= character <= Dollar(text, 0) == Dollar(text, character)
        invariant Valid() && Coherent() && Drawn() && cursor == 0
        invariant forall y, x, c :: 0 <= y < height && 0 <= x < width && 0 <= c < bytes ==>
                    back[y, x, c] == StrokesPixel(strokes, character, y, x, c, old(back[y, x, c]))
      {
        if text[character] == DOLLAR {
          cursor := character;
          break;
        }
        assert StrokeFits(strokes[character]);
        DrawStroke(Glyph((PromptX() + character * 8 * PromptScale()) % B32, PromptY(), text[character], PROMPT_CYAN,
                         TERMINAL_BACKGROUND, PromptScale()));
        character := character + 1;
      }
    }

    /** The loop that draws the input behind the dollar sign, and where it ends. */
    method DrawInput(text: seq<byte>, from: nat) returns (inputX: nat)
      requires Valid() && Coherent() && from <= |text|
               && FitsAll(Typed(text, from, |text| - from, InputX(), InputY(), FOREGROUND))
      modifies this`damage, back
      ensures Valid() && Coherent() && Drawn()
      ensures inputX == InputEnd(|text| - from)
      ensures var strokes := Typed(text, from, |text| - from, InputX(), InputY(), FOREGROUND);
              forall y, x, c :: 0 <= y < height && 0 <= x < width && 0 <= c < bytes ==>
                back[y, x, c] == StrokesPixel(strokes, |strokes|, y, x, c, old(back[y, x, c]))
    {
      hide StrokePixel;
      hide StrokeFits;
      hide InputY;
      ghost var strokes := Typed(text, from, |text| - from, InputX(), InputY(), FOREGROUND);
      inputX := InputX();
      var character: nat := from;
      while character < |text|
        invariant from <= character <= |text|
        invariant inputX == InputEnd(character - from)
        invariant Valid() && Coherent() && Drawn()
        invariant forall y, x, c :: 0 <= y < height && 0 <= x < width && 0 <= c < bytes ==>
                    back[y, x, c] == StrokesPixel(strokes, character - from, y, x, c, old(back[y, x, c]))
      {
        assert StrokeFits(strokes[character - from]);
        DrawStroke(Glyph(inputX, InputY(), text[character], FOREGROUND, TERMINAL_BACKGROUND, PromptScale()));
        NextColumn(InputX(), character - from, PromptScale());
        inputX := (inputX + 8 * PromptScale()) % B32;
        character := character + 1;
      }
    }

    /** `framebuffer_draw_terminal_prompt` */
    method DrawTerminalPrompt(text: seq<byte>)
      requires Valid() && Coherent() && |text| <= TEXT_MAX
      modifies this`damage, back
      ensures Valid() && Coherent() && Drawn()
      ensures forall y, x, c :: 0 <= y < height && 0 <= x < width && 0 <= c < bytes ==>
                back[y, x, c] == StrokesPixel(PromptStrokes(text), |PromptStrokes(text)|, y, x, c, old(back[y, x, c]))
    {
      hide StrokesPixel;
      hide StrokeFits;
      hide Typed;
      hide Terminal;
      hide Bracket;
      hide CursorBox;
      hide PromptX;
      hide PromptY;
      hide InputY;
      hide Dollar;
      PromptFits(text);
      var d := Dollar(text, 0);
      ghost var from := InputFrom(text, d);
      ghost var a, b := Terminal(), Typed(text, 0, d, PromptX(), PromptY(), PROMPT_CYAN);
      ghost var e, f := Bracket(), Typed(text, from, |text| - from, InputX(), InputY(), FOREGROUND);
      ghost var g := CursorBox(InputEnd(|text| - from));
      FitsParts(a, b, e, f, g);
      StrokesConcat(a, b);
      StrokesConcat(a + b, e);
      StrokesConcat(a + b + e, f);
      StrokesConcat(a + b + e + f, g);
      DrawStrokes(Terminal());
      var cursor := DrawDirectory(text);
      if cursor == 0 { cursor := |text|; }
      DrawStrokes(Bracket());
      var first := if cursor < |text| then cursor + 1 else |text|;
      var inputX := DrawInput(text, first);
      DrawStrokes(CursorBox(inputX));
    }

    /** One command; an unknown one, and a text that is too long, paint nothing. */
    method DrawCommand(draw: Command) returns (ok: bool)
      requires Valid() && Coherent() && NoWrap(draw)
      modifies this`damage, back
      ensures Valid() && Coherent() && Drawn()
      ensures ok == Known(draw)
      ensures forall y, x, c :: 0 <= y < height && 0 <= x < width && 0 <= c < bytes ==>
                back[y, x, c] == Painted(draw, y, x, c, old(back[y, x, c]))
    {
      hide Rounded;
      hide Filled;
      hide Clip;
      hide Inside;
      hide WallpaperByte;
      hide WallpaperArea;
      hide IconByte;
      hide AtlasIndex;
      hide TextPixel;
      ok := true;
      match draw {
        case Fill(x, y, w, h, color) => FillRect(x, y, w, h, color);
        case FillRounded(x, y, w, h, radius, color) => FillRoundedRect(x, y, w, h, radius, color);
        case Text(x, y, size, text, color) =>
          if |text| > TEXT_MAX { return false; }
          DrawText(x, y, text, color, if size == 0 then 1 else size);
        case Wallpaper(x, y, w, h) => DrawWallpaper(x, y, w, h);
        case Icon(x, y, icon) => DrawIcon(x, y, icon);
        case Prompt(text) =>
          if |text| > TEXT_MAX { return false; }
          DrawTerminalPrompt(text);
        case Unknown => return false;
      }
    }

    /** `quanta_arch_desktop_draw`: the commands up to the first unknown one paint over each other in
        order; the pages stay coherent and only damaged pixels have changed. */
    method Draw(commands: seq<Command>) returns (ok: bool)
      requires Valid() && Coherent() && forall i :: 0 <= i < |commands| ==> NoWrap(commands[i])
      modifies this`damage, back
      ensures Valid() && Coherent() && Drawn()
      ensures ok <==> 0 < |commands| <= MAX_COMMANDS && forall i :: 0 <= i < |commands| ==> Known(commands[i])
      ensures forall y, x, c :: 0 <= y < height && 0 <= x < width && 0 <= c < bytes ==>
                back[y, x, c] == PaintedAll(commands, Executed(commands), y, x, c, old(back[y, x, c]))
    {
      hide Painted;
      hide Known;
      hide NoWrap;
      if |commands| == 0 || |commands| > MAX_COMMANDS { return false; }
      var index := 0;
      while index < |commands|
        invariant 0 <= index <= |commands|
        invariant Valid() && Coherent() && Drawn()
        invariant forall i :: 0 <= i < index ==> Known(commands[i])
        invariant FirstUnknown(commands, index) == FirstUnknown(commands, 0)
        invariant forall y, x, c :: 0 <= y < height && 0 <= x < width && 0 <= c < bytes ==>
                    back[y, x, c] == PaintedAll(commands, index, y, x, c, old(back[y, x, c]))
      {
        ok := DrawCommand(commands[index]);
        if !ok { UnknownPaintsNothing(commands[index]); return false; }
        index := index + 1;
      }
      ok := true;
    }

    lemma UnknownPaintsNothing(command: Command)
      requires !Known(command) && 0 < width && 0 < height && |font| == 4096
      ensures forall y: nat, x: nat, c: nat, under :: y < height && x < width ==>
                Painted(command, y, x, c, under) == under
    {
    }

    /** Any run of draw and present calls, with any answers of the display: at every point the pages
        are coherent, and after a present that succeeds every page shows the back buffer. */
    method Session(calls: seq<Call>) returns (results: seq<bool>)
      requires Valid() && Coherent()
      requires forall k, i :: 0 <= k < |calls| && calls[k].DrawCall? && 0 <= i < |calls[k].commands| ==>
                 NoWrap(calls[k].commands[i])
      modifies this`damage, this`frontY, back, scanout
      ensures Valid() && Coherent() && |results| == |calls|
      ensures |calls| > 0 && calls[|calls| - 1].PresentCall? && results[|calls| - 1] ==> Synced() && damage == Clean
    {
      results := [];
      var index := 0;
      while index < |calls|
        invariant 0 <= index <= |calls| && |results| == index
        invariant Valid() && Coherent()
        invariant index > 0 && calls[index - 1].PresentCall? && results[index - 1] ==> Synced() && damage == Clean
      {
        var ok;
        match calls[index] {
          case DrawCall(commands) => ok := Draw(commands);
          case PresentCall(retrace, flipped) => ok := Present(retrace, flipped);
        }
        results := results + [ok];
        index := index + 1;
      }
    }
  }

  const MAX_COMMANDS: nat := 32
  const TEXT_MAX: nat := 128

  /** Up to here the sums of squares of the corner loop fit a signed 32-bit word. */
  const RADIUS_LIMIT: nat := 0x8000

  /** The drawing commands of the system-call interface. */
  datatype Command =
    | Fill(x: nat, y: nat, width: nat, height: nat, color: nat)
    | FillRounded(x: nat, y: nat, width: nat, height: nat, radius: nat, color: nat)
    | Text(x: nat, y: nat, size: nat, text: seq<byte>, color: nat)
    | Wallpaper(x: nat, y: nat, width: nat, height: nat)
    | Icon(x: nat, y: nat, icon: nat)
    | Prompt(text: seq<byte>)
    | Unknown

  /** The two primitives of the terminal prompt. */
  datatype Stroke =
    | Box(left: nat, top: nat, width: nat, height: nat, color: nat)
    | Glyph(left: nat, top: nat, character: byte, foreground: nat, background: nat, scale: nat)

  /** The pixel lies in a box of that colour. */
  predicate InBoxes(strokes: seq<Stroke>, color: nat, y: nat, x: nat) {
    exists stroke :: stroke in strokes && InBox(stroke, color, y, x)
  }

  lemma BoxesJoin(a: seq<Stroke>, b: seq<Stroke>, color: nat, y: nat, x: nat)
    ensures InBoxes(a + b, color, y, x) <==> InBoxes(a, color, y, x) || InBoxes(b, color, y, x)
  {
    assert forall stroke :: stroke in a + b <==> stroke in a || stroke in b;
  }

  lemma OneBox(a: Stroke, color: nat, y: nat, x: nat)
    ensures InBoxes([a], color, y, x) <==> InBox(a, color, y, x)
  {
    assert a in [a];
  }

  lemma TwoBoxes(a: Stroke, b: Stroke, color: nat, y: nat, x: nat)
    ensures InBoxes([a, b], color, y, x) <==> InBox(a, color, y, x) || InBox(b, color, y, x)
  {
    assert [a, b] == [a] + [b];
    BoxesJoin([a], [b], color, y, x);
    OneBox(a, color, y, x);
    OneBox(b, color, y, x);
  }

  /** A frame two pixels thick. */
  function FrameBoxes(left: nat, top: nat, w: nat, h: nat, color: nat): seq<Stroke>
    requires w >= 2 && h >= 2
  {
    [Box(left, top, w, 2, color), Box(left, top + h - 2, w, 2, color)]
    + [Box(left, top, 2, h, color), Box(left + w - 2, top, 2, h, color)]
  }

  lemma FrameOutlines(left: nat, top: nat, w: nat, h: nat, color: nat, y: nat, x: nat)
    requires w >= 4 && h >= 4
    ensures InBoxes(FrameBoxes(left, top, w, h, color), color, y, x) <==>
            && top <= y < top + h && left <= x < left + w
            && !(top + 2 <= y < top + h - 2 && left + 2 <= x < left + w - 2)
  {
    var above, below := Box(left, top, w, 2, color), Box(left, top + h - 2, w, 2, color);
    var before, behind := Box(left, top, 2, h, color), Box(left + w - 2, top, 2, h, color);
    hide InBoxes;
    BoxesJoin([above, below], [before, behind], color, y, x);
    TwoBoxes(above, below, color, y, x);
    TwoBoxes(before, behind, color, y, x);
  }

  /** A frame four pixels thick and open to the right. */
  function OpenBoxes(left: nat, top: nat, h: nat, color: nat): seq<Stroke>
    requires h >= 4
  {
    [Box(left, top, 4, h, color), Box(left, top, 64, 4, color)] + [Box(left, top + h - 4, 64, 4, color)]
  }

  lemma OpenOutlines(left: nat, top: nat, h: nat, color: nat, y: nat, x: nat)
    requires h >= 4
    ensures InBoxes(OpenBoxes(left, top, h, color), color, y, x) <==>
            && top <= y < top + h && left <= x < left + 64
            && (x < left + 4 || y < top + 4 || y >= top + h - 4)
  {
    var upright, above := Box(left, top, 4, h, color), Box(left, top, 64, 4, color);
    var below := Box(left, top + h - 4, 64, 4, color);
    hide InBoxes;
    BoxesJoin([upright, above], [below], color, y, x);
    TwoBoxes(upright, above, color, y, x);
    OneBox(below, color, y, x);
  }

  predicate InBox(stroke: Stroke, color: nat, y: nat, x: nat) {
    && stroke.Box? && stroke.color == color
    && stroke.top <= y < stroke.top + stroke.height && stroke.left <= x < stroke.left + stroke.width
  }

  predicate StrokeFits(stroke: Stroke) { stroke.Glyph? ==> stroke.left + 64 < B32 && stroke.top + 128 < B32 }

  predicate FitsAll(strokes: seq<Stroke>) { forall i :: 0 <= i < |strokes| ==> StrokeFits(strokes[i]) }

  lemma FitsJoin(a: seq<Stroke>, b: seq<Stroke>)
    requires FitsAll(a) && FitsAll(b)
    ensures FitsAll(a + b)
  {
    hide StrokeFits;
  }

  lemma Columns(i: nat, scale: nat)
    requires i < TEXT_MAX && scale <= 6
    ensures 0 <= i * 8 * scale <= TEXT_MAX * 48
  {
    assert i * 8 * scale <= i * 8 * 6;
  }

  lemma FitsConcat(a: seq<Stroke>, b: seq<Stroke>)
    requires FitsAll(a + b)
    ensures FitsAll(a) && FitsAll(b)
  {
    hide StrokeFits;
    forall i | 0 <= i < |a|
      ensures StrokeFits(a[i])
    {
      assert (a + b)[i] == a[i];
    }
    forall i | 0 <= i < |b|
      ensures StrokeFits(b[i])
    {
      assert (a + b)[|a| + i] == b[i];
    }
  }

  lemma FitsParts(a: seq<Stroke>, b: seq<Stroke>, e: seq<Stroke>, f: seq<Stroke>, g: seq<Stroke>)
    requires FitsAll(a + b + e + f + g)
    ensures FitsAll(a) && FitsAll(b) && FitsAll(e) && FitsAll(f) && FitsAll(g)
  {
    hide FitsAll;
    FitsConcat(a + b + e + f, g);
    FitsConcat(a + b + e, f);
    FitsConcat(a + b, e);
    FitsConcat(a, b);
  }

  /** The first dollar sign from `i` on; the length if there is none. */
  function Dollar(text: seq<byte>, i: nat): (d: nat)
    requires i <= |text|
    ensures i <= d <= |text|
    decreases |text| - i
  {
    if i == |text| || text[i] == DOLLAR then i else Dollar(text, i + 1)
  }

  /** Where the input starts; a dollar sign at the very beginning counts as none. */
  function InputFrom(text: seq<byte>, d: nat): (from: nat)
    requires d <= |text|
    ensures from <= |text|
  {
    if 0 < d < |text| then d + 1 else |text|
  }

  /** A prompt shows the text up to the first dollar sign, and takes what is behind that sign as the input; a text
      that begins with a dollar sign, or has none, has no input. */
  lemma PromptSplits(text: seq<byte>)
    ensures var d := Dollar(text, 0);
            var from := InputFrom(text, d);
            && (forall i :: 0 <= i < d ==> text[i] != 0x24)
            && (if d == 0 || d == |text| then text[from..] == []
                else text == text[..d] + [0x24] + text[from..])
  {
    NoDollar(text, 0);
    hide Dollar;
    var d := Dollar(text, 0);
    if d < |text| { CutBehind(text, d); }
  }

  lemma CutBehind(text: seq<byte>, d: nat)
    requires d < |text|
    ensures text == text[..d] + [text[d]] + text[d + 1..]
  {
  }

  lemma {:induction false} NoDollar(text: seq<byte>, i: nat)
    requires i <= |text|
    ensures forall k :: i <= k < Dollar(text, i) ==> text[k] != DOLLAR
    ensures Dollar(text, i) < |text| ==> text[Dollar(text, i)] == DOLLAR
    decreases |text| - i
  {
    if i < |text| && text[i] != DOLLAR { NoDollar(text, i + 1); }
  }

  lemma NextColumn(left: nat, n: nat, scale: nat)
    ensures ((left + n * 8 * scale) % B32 + 8 * scale) % B32 == (left + (n + 1) * 8 * scale) % B32
  {
    assert (n + 1) * 8 * scale == n * 8 * scale + 8 * scale;
  }

  datatype Call =
    | DrawCall(commands: seq<Command>)
    | PresentCall(retrace: bool, flipped: bool)

  predicate Known(command: Command) {
    !command.Unknown? && (command.Text? || command.Prompt? ==> |command.text| <= TEXT_MAX)
  }

  /** The first command from `i` on that is not known; the number of commands if all are. */
  function FirstUnknown(commands: seq<Command>, i: nat): (n: nat)
    requires i <= |commands|
    ensures i <= n <= |commands|
    decreases |commands| - i
  {
    if i == |commands| || !Known(commands[i]) then i else FirstUnknown(commands, i + 1)
  }

  /** The number of commands that one call executes. */
  function Executed(commands: seq<Command>): (n: nat)
    ensures n <= |commands|
  {
    if |commands| > MAX_COMMANDS then 0 else FirstUnknown(commands, 0)
  }

  /** One call executes the commands before the first that is not known, and none of a list of more than 32. */
  lemma ExecutedIs(commands: seq<Command>)
    ensures var n := Executed(commands);
            if |commands| > 32 then n == 0
            else
              && (forall i :: 0 <= i < n ==> Known(commands[i]))
              && (n < |commands| ==> !Known(commands[n]))
  {
    UnknownIs(commands, 0);
  }

  lemma {:induction false} UnknownIs(commands: seq<Command>, i: nat)
    requires i <= |commands|
    ensures var n := FirstUnknown(commands, i);
            (forall k :: i <= k < n ==> Known(commands[k])) && (n < |commands| ==> !Known(commands[n]))
    decreases |commands| - i
  {
    hide Known;
    if i < |commands| && Known(commands[i]) { UnknownIs(commands, i + 1); }
  }

  /** Every glyph of the text starts at coordinates that do not wrap; a scale above eight draws
      nothing. */
  predicate TextFits(left: nat, top: nat, text: seq<byte>, scale: nat) {
    top + 128 < B32 && forall i :: 0 <= i < |text| ==> GlyphStart(left, i, scale) + 64 < B32
  }

  function GlyphStart(left: nat, i: nat, scale: nat): nat { (left + i * 8 * scale) % B32 }

  const WALLPAPER_BYTES: nat := WALLPAPER_WIDTH * WALLPAPER_HEIGHT + 256 * 4
  const ICON_BYTES: nat := ICON_SIZE * ICON_SIZE * 4
  const ATLAS_BYTES: nat := ICON_BYTES * (ICON_LAST + 1)

  /** Position `y` of `h`, scaled to `n`. */
  function Scaled(y: nat, n: nat, h: nat): (r: nat)
    requires y < h && n > 0
    ensures r < n
  {
    ScaleBound(y, n, h);
    y * n / h
  }

  lemma ScaleBound(y: nat, n: nat, h: nat)
    requires y < h && n > 0
    ensures y * n / h < n
  {
    var q, m := y * n / h, y * n % h;
    assert y * n == h * q + m;
    MulLe(y + 1, h, n);
    if q >= n { MulLe(n, q, h); }
  }

  /** The scaled position is the last whole one not behind the exact one. */
  lemma ScaledIs(y: nat, n: nat, h: nat)
    requires y < h && n > 0
    ensures Scaled(y, n, h) * h <= y * n < (Scaled(y, n, h) + 1) * h
  {
    assert y * n == h * (y * n / h) + y * n % h;
  }

  lemma MulLe(a: nat, b: nat, c: nat)
    requires a <= b
    ensures a * c <= b * c
  {
  }

  function WallpaperArea(left: nat, top: nat, width: nat, height: nat, screenWidth: nat, screenHeight: nat): Rect {
    if width == 0 || height == 0 then Rect(0, 0, screenWidth, screenHeight)
    else if left >= screenWidth || top >= screenHeight then Rect(0, 0, 0, 0)
    else Clip(left, top, width, height, screenWidth, screenHeight)
  }

  lemma WallpaperAreaIs(left: nat, top: nat, w: nat, h: nat, screenWidth: nat, screenHeight: nat)
    ensures WallpaperArea(left, top, w, h, screenWidth, screenHeight)
            == if w == 0 || h == 0 then Rect(0, 0, screenWidth, screenHeight)
               else if left >= screenWidth || top >= screenHeight then Rect(0, 0, 0, 0)
               else Rect(left, top, left + Min(w, screenWidth - left), top + Min(h, screenHeight - top))
  {
  }

  /** Byte `c` of the wallpaper, scaled to the screen, at a pixel. */
  function WallpaperByte(image: seq<byte>, width: nat, height: nat, rgbx: bool, y: nat, x: nat, c: nat): byte
    requires |image| == WALLPAPER_BYTES && y < height && x < width
  {
    var source := WALLPAPER_WIDTH * WALLPAPER_HEIGHT
                  + (image[Scaled(y, WALLPAPER_HEIGHT, height) * WALLPAPER_WIDTH
                           + Scaled(x, WALLPAPER_WIDTH, width)] as nat) * 4;
    if c == 3 then 0 else if c == 1 then image[source + 1] else if (c == 0) == rgbx then image[source]
    else image[source + 2]
  }

  /** The wallpaper shows, in every pixel, the palette entry of its nearest source pixel up and to the left: 512 by
      288 numbers, then 256 entries of four bytes, of which the first three are shown in this order or the other. */
  lemma WallpaperShows(image: seq<byte>, width: nat, height: nat, y: nat, x: nat, row: nat, column: nat)
    requires |image| == WALLPAPER_BYTES && y < height && x < width && row < 288 && column < 512
    requires row * height <= y * 288 < (row + 1) * height && column * width <= x * 512 < (column + 1) * width
    ensures 512 * row + column < |image|
    ensures var entry := 512 * 288 + 4 * (image[512 * row + column] as nat);
            && entry + 4 <= |image|
            && WallpaperByte(image, width, height, true, y, x, 0) == image[entry]
               == WallpaperByte(image, width, height, false, y, x, 2)
            && WallpaperByte(image, width, height, true, y, x, 1) == image[entry + 1]
               == WallpaperByte(image, width, height, false, y, x, 1)
            && WallpaperByte(image, width, height, true, y, x, 2) == image[entry + 2]
               == WallpaperByte(image, width, height, false, y, x, 0)
  {
    ScaledOnly(y, 288, height, row);
    ScaledOnly(x, 512, width, column);
    hide Scaled;
  }

  lemma ScaledOnly(y: nat, n: nat, h: nat, r: nat)
    requires y < h && n > 0 && r * h <= y * n < (r + 1) * h
    ensures Scaled(y, n, h) == r
  {
    ScaledIs(y, n, h);
    var q := Scaled(y, n, h);
    hide Scaled;
    if q < r { MulLe(q + 1, r, h); }
    if r < q { MulLe(r + 1, q, h); }
  }

  /** Byte `c` of a pixel under the icon pixel at `source`. */
  function IconByte(icons: seq<byte>, source: nat, rgbx: bool, c: nat, under: byte): byte {
    if source + 4 > |icons| || icons[source + 3] == 0 || c == 3 then under
    else Blend(if c == 1 then 0xee else if (c == 0) == rgbx then 0xdc else 0xff, under, icons[source + 3])
  }

  /** An icon is a mask: its fourth bytes mix 0xdceeff into what is there. */
  lemma IconShows(icons: seq<byte>, source: nat, rgbx: bool, c: nat, under: byte)
    requires source + 4 <= |icons| && c < 3
    ensures IconByte(icons, source, rgbx, c, under) == Blend(Part(0xdceeff, rgbx, c), under, icons[source + 3])
  {
    hide Blend;
    IconColour(rgbx, c);
    hide Part;
    if icons[source + 3] == 0 { BlendIs(Part(0xdceeff, rgbx, c), under, 0); }
  }

  lemma IconColour(rgbx: bool, c: nat)
    requires c < 3
    ensures Part(0xdceeff, rgbx, c) == if c == 1 then 0xee else if (c == 0) == rgbx then 0xdc else 0xff
  {
  }

  /** The first byte of row `dy` of an icon drawn `w` pixels wide. */
  function AtlasIndex(icon: nat, w: nat, dy: nat): nat { ICON_BYTES * icon + 4 * (dy * w) }

  lemma AtlasStart(icon: nat, w: nat)
    ensures AtlasIndex(icon, w, 0) == ICON_BYTES * icon
  {
  }

  lemma RowFits(icon: nat, y: nat, w: nat, h: nat)
    requires y < h <= ICON_SIZE && w <= ICON_SIZE && icon <= ICON_LAST
    ensures AtlasIndex(icon, w, y) + 4 * w <= ATLAS_BYTES
    ensures AtlasIndex(icon, w, y + 1) == AtlasIndex(icon, w, y) + 4 * w
  {
    MulLe(y, 23, w);
    assert (y + 1) * w == y * w + w;
  }

  /** Byte `c` that an icon drawn `w` pixels wide puts on a transparent or black pixel. */
  predicate DrawnInPlace(icon: nat, w: nat, icons: seq<byte>, dy: nat, dx: nat, c: nat) {
    IconByte(icons, AtlasIndex(icon, w, dy) + 4 * dx, false, c, 0)
      == IconByte(icons, AtlasIndex(icon, ICON_SIZE, dy) + 4 * dx, false, c, 0)
  }

  /** An atlas whose only visible pixel starts the second row of an icon: cut off on the right, the icon
      is drawn without it there. */
  lemma CutOffIcon(icon: nat, w: nat) returns (icons: seq<byte>)
    requires icon <= ICON_LAST && 0 < w < ICON_SIZE
    ensures |icons| == ATLAS_BYTES && !DrawnInPlace(icon, w, icons, 1, 0, 1)
  {
    var at := AtlasIndex(icon, ICON_SIZE, 1);
    RowFits(icon, 1, ICON_SIZE, ICON_SIZE);
    icons := seq(ATLAS_BYTES, i => if i == at + 3 then 255 else 0);
    assert Blend(0xee, 0, 255) == 0xee;
  }

  /** An icon drawn `w` pixels wide and `h` high shows its part of every atlas exactly when it is not cut
      off on the right, or has one row only. */
  lemma IconInPlace(icon: nat, w: nat, h: nat)
    requires icon <= ICON_LAST && 0 < w <= ICON_SIZE && 0 < h <= ICON_SIZE
    ensures (forall icons: seq<byte>, dy: nat, dx: nat, c: nat :: |icons| == ATLAS_BYTES && dy < h && dx < w ==>
               DrawnInPlace(icon, w, icons, dy, dx, c))
            <==> w == ICON_SIZE || h == 1
  {
    if w < ICON_SIZE && h > 1 {
      var icons := CutOffIcon(icon, w);
    }
    hide IconByte;
  }

  function FontRow(font: seq<byte>, character: byte, row: int): byte
    requires |font| == 4096
  {
    if 0 <= row < 16 then font[character * 16 + row] else 0
  }

  /** Bit `column` of a font row, counted from the left. */
  predicate FontBit(bits: byte, column: int) {
    match column
    case 0 => bits / 128 % 2 == 1
    case 1 => bits / 64 % 2 == 1
    case 2 => bits / 32 % 2 == 1
    case 3 => bits / 16 % 2 == 1
    case 4 => bits / 8 % 2 == 1
    case 5 => bits / 4 % 2 == 1
    case 6 => bits / 2 % 2 == 1
    case _ => bits % 2 == 1
  }

  /** The leftmost column is the highest bit. */
  lemma FontBitIs(bits: byte, column: nat)
    requires column < 8
    ensures FontBit(bits, column) <==> Bit(bits, 7 - column)
  {
    if column < 4 { BitFour(bits, 3 - column); }
    Quarters(bits);
    Quarters(bits / 16);
  }

  lemma Halvings(w: nat)
    ensures w / 2 / 2 == w / 4 && w / 2 / 2 / 2 == w / 8
    ensures w / 16 / 2 == w / 32 && w / 16 / 4 == w / 64 && w / 16 / 8 == w / 128
  {
  }

  lemma Quarters(w: nat)
    ensures Bit(w, 0) == (w % 2 == 1) && Bit(w, 1) == (w / 2 % 2 == 1)
    ensures Bit(w, 2) == (w / 4 % 2 == 1) && Bit(w, 3) == (w / 8 % 2 == 1)
    ensures w / 16 / 2 == w / 32 && w / 16 / 4 == w / 64 && w / 16 / 8 == w / 128
  {
    Halvings(w);
    assert Bit(w, 1) == Bit(w / 2, 0) && Bit(w, 2) == Bit(w / 2, 1) == Bit(w / 2 / 2, 0);
    assert Bit(w, 3) == Bit(w / 2, 2) == Bit(w / 2 / 2, 1) == Bit(w / 2 / 2 / 2, 0);
  }

  function GlyphByte(bits: byte, column: int, foreground: nat, background: nat, c: nat, under: byte): byte {
    if !FontBit(bits, column) && background == TRANSPARENT then under
    else
      var color := if FontBit(bits, column) then foreground else background;
      if c == 0 then color % 256 else if c == 1 then color / 0x100 % 256 else if c == 2 then color / 0x1_0000 % 256
      else 0
  }

  /** A lit pixel of a glyph shows the foreground and any other the background, lowest byte first, or what was there
      if the background is transparent. */
  lemma GlyphShows(bits: byte, column: nat, foreground: nat, background: nat, under: byte, c: nat)
    requires column < 8
    ensures var color := if Bit(bits, 7 - column) then foreground else background;
            if !Bit(bits, 7 - column) && background == 0xffff_ffff
            then GlyphByte(bits, column, foreground, background, c, under) == under
            else
              && GlyphByte(bits, column, foreground, background, 0, under)
                 + 0x100 * GlyphByte(bits, column, foreground, background, 1, under)
                 + 0x1_0000 * GlyphByte(bits, column, foreground, background, 2, under) == color % 0x100_0000
              && GlyphByte(bits, column, foreground, background, 3, under) == 0
  {
    FontBitIs(bits, column);
    ThreeBytes(foreground);
    ThreeBytes(background);
    hide FontBit;
    hide Bit;
  }

  /** Text takes no account of the order of bytes in a pixel.  On a screen with the red byte first it has the colour
      that a rectangle would have exactly when the red and the blue of the colour are equal. */
  lemma TextColour(bits: byte, column: nat, color: nat, background: nat, under: byte)
    requires column < 8 && Bit(bits, 7 - column)
    ensures (forall c: nat :: c < 3 ==> GlyphByte(bits, column, color, background, c, under) == Part(color, true, c))
            <==> color % 256 == color / 0x1_0000 % 256
  {
    FontBitIs(bits, column);
    hide FontBit;
    hide Bit;
    assert Part(color, true, 0) == color / 0x1_0000 % 256 && Part(color, true, 2) == color % 256;
    assert GlyphByte(bits, column, color, background, 0, under) == color % 256;
    assert GlyphByte(bits, column, color, background, 2, under) == color / 0x1_0000 % 256;
  }

  /** Every bit of the font is drawn as a square of `scale` by `scale` pixels: this is the bit at pixel `i`, `j` of
      the square in row `row` and column `column`. */
  lemma GlyphSquare(font: seq<byte>, character: byte, top: nat, left: nat, scale: nat, row: nat, column: nat, i: nat,
                    j: nat)
    requires |font| == 4096 && row < 16 && column < 8 && i < scale && j < scale
    ensures FontRow(font, character, Cell(top + row * scale + i, top, scale)) == font[16 * character + row]
    ensures Cell(left + column * scale + j, left, scale) == column
  {
    CellOf(row, scale, top + row * scale + i, top);
    CellOf(column, scale, left + column * scale + j, left);
    hide Cell;
  }

  lemma ColumnFits(column: nat, scale: nat)
    requires column < 8
    ensures column * scale + scale <= 8 * scale
    ensures (column + 1) * scale == column * scale + scale
  {
    assert column * scale <= 7 * scale;
  }

  lemma GlyphRowFits(row: nat, scale: nat)
    requires row < 16
    ensures row * scale + scale <= 16 * scale
    ensures (row + 1) * scale == row * scale + scale
  {
    assert row * scale <= 15 * scale;
  }

  /** The font cell that position `x` of a glyph starting at `start` falls into. */
  function Cell(x: int, start: int, scale: nat): int {
    if scale == 0 then 0 else (x - start) / scale
  }

  lemma CellOf(cell: nat, scale: nat, x: int, start: int)
    requires 0 < scale && cell * scale <= x - start < cell * scale + scale
    ensures Cell(x, start, scale) == cell
  {
    var offset: nat := x - start;
    var q, m := offset / scale, offset % scale;
    assert offset == scale * q + m;
    if q < cell { MulLe(q + 1, cell, scale); }
    if cell < q { MulLe(cell + 1, q, scale); }
  }

  /** The first inset from `candidate` on whose corner lies in the circle; none counts as zero. */
  function InsetFrom(radius: nat, edge: nat, candidate: nat): nat
    decreases radius + 1 - candidate
  {
    if candidate > radius then 0
    else if (radius - candidate) * (radius - candidate) + edge * edge <= radius * radius then candidate
    else InsetFrom(radius, edge, candidate + 1)
  }

  function Inset(radius: nat, edge: nat): nat { if edge == 0 then 0 else InsetFrom(radius, edge, 0) }

  lemma {:induction false} InsetBound(radius: nat, edge: nat, candidate: nat)
    ensures InsetFrom(radius, edge, candidate) <= radius
    decreases radius + 1 - candidate
  {
    if candidate <= radius && !((radius - candidate) * (radius - candidate) + edge * edge <= radius * radius) {
      InsetBound(radius, edge, candidate + 1);
    }
  }

  predicate InCircle(radius: nat, edge: nat, k: nat)
    requires k <= radius
  {
    (radius - k) * (radius - k) + edge * edge <= radius * radius
  }

  /** The inset is the least distance at which the row enters the corner circle. */
  lemma {:induction false} InsetLeast(radius: nat, edge: nat, candidate: nat)
    requires edge < radius && candidate <= radius
    ensures var i := InsetFrom(radius, edge, candidate);
            && candidate <= i <= radius
            && InCircle(radius, edge, i)
            && forall k :: candidate <= k < i ==> !InCircle(radius, edge, k)
    decreases radius - candidate
  {
    Square(edge, radius);
    assert InCircle(radius, edge, radius);
    if !InCircle(radius, edge, candidate) {
      InsetLeast(radius, edge, candidate + 1);
    }
  }

  lemma Square(a: nat, b: nat)
    requires a <= b
    ensures a * a <= b * b
  {
    MulLe(a, b, a);
    MulLe(a, b, b);
  }

  predicate HasCorners(width: nat, height: nat, radius: nat) {
    width > 0 && height > 0 && 0 < radius <= width / 2 && radius <= height / 2
  }

  /** Corners are drawn when there are any and two of them fit beside and above each other. */
  lemma HasCornersIs(width: nat, height: nat, radius: nat)
    ensures HasCorners(width, height, radius) <==> radius > 0 && 2 * radius <= width && 2 * radius <= height
  {
  }

  /** The distance of a row from the centre line of its corners; zero between them. */
  function EdgeOf(height: nat, radius: nat, row: nat): (edge: nat)
    requires radius <= height && row < height
    ensures edge == 0 || edge < radius
  {
    if row < radius then radius - row - 1 else if row >= height - radius then row - (height - radius) else 0
  }

  /** The corners mirror each other: a row is as far out as the one as far from the other end, and the rows further
      in are nearer to the centre line by one each. */
  lemma EdgeMirrors(height: nat, radius: nat, row: nat)
    requires 2 * radius <= height && row < height
    ensures EdgeOf(height, radius, row) == EdgeOf(height, radius, height - 1 - row)
    ensures row < radius ==> EdgeOf(height, radius, row) + row + 1 == radius
    ensures radius <= row < height - radius ==> EdgeOf(height, radius, row) == 0
  {
  }

  /** The row of a shape starting at `top` that lies at `y`; coordinates are 32-bit. */
  function RowOf(top: nat, y: int): nat { (y - top) % B32 }

  lemma RowIs(top: nat, y: nat, row: nat)
    requires y < B32 && row < B32
    ensures RowOf(top, y) == row <==> y == (top + row) % B32
  {
    var q := (y - top) / B32;
    assert y - top == q * B32 + (y - top) % B32;
    var p := (top + row) / B32;
    assert top + row == p * B32 + (top + row) % B32;
    if RowOf(top, y) == row {
      Multiple(y, (top + row) % B32, q + p);
    } else if y == (top + row) % B32 {
      Multiple((y - top) % B32, row, -p - q);
    }
  }

  lemma Multiple(a: nat, b: nat, k: int)
    requires a < B32 && b < B32 && a - b == k * B32
    ensures a == b
  {
  }

  lemma InsetZero(radius: nat)
    ensures Inset(radius, 0) == 0
  {
  }

  predicate InRow(left: nat, width: nat, height: nat, radius: nat, row: nat, x: int)
    requires radius <= height && row < height
  {
    var inset := Inset(radius, EdgeOf(height, radius, row));
    (left + inset) % B32 <= x < (left + inset) % B32 + width - 2 * inset
  }

  /** The pixels of a rounded rectangle. */
  predicate Rounded(left: nat, top: nat, width: nat, height: nat, radius: nat, y: int, x: int) {
    HasCorners(width, height, radius) && RowOf(top, y) < height && InRow(left, width, height, radius, RowOf(top, y), x)
  }
}
