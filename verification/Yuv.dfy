/** capture.c: `YUV422toRGB888`, over exact reals in place of doubles. */
module Yuv {
  import opened Basics

  /** CLIP and the conversion to `unsigned char`, which truncates. */
  function Clip(x: real): byte {
    if x >= 255.0 then 255 else if x <= 0.0 then 0 else x.Floor
  }

  function Red(y: byte, v: byte): byte { Clip(y as real + 1.402 * (v as real - 128.0)) }

  function Green(y: byte, u: byte, v: byte): byte {
    Clip(y as real - 0.344 * (u as real - 128.0) - 0.714 * (v as real - 128.0))
  }

  function Blue(y: byte, u: byte): byte { Clip(y as real + 1.772 * (u as real - 128.0)) }

  /** Values outside the byte range are cut off, others truncated. */
  lemma ClipMeaning(x: real)
    ensures x <= 0.0 ==> Clip(x) == 0
    ensures x >= 255.0 ==> Clip(x) == 255
    ensures 0.0 <= x <= 255.0 ==> Clip(x) as real <= x < Clip(x) as real + 1.0
  {}

  /**
    The formulae invert the luma of ITU-R BT.601: where nothing is cut off, the weighted sum of the three channels is the
    luma again, to within the truncation.
   */
  lemma LumaIsKept(y: byte, u: byte, v: byte)
    requires 0.0 <= y as real + 1.402 * (v as real - 128.0) <= 255.0
    requires 0.0 <= y as real - 0.344 * (u as real - 128.0) - 0.714 * (v as real - 128.0) <= 255.0
    requires 0.0 <= y as real + 1.772 * (u as real - 128.0) <= 255.0
    ensures var luma := 0.299 * Red(y, v) as real + 0.587 * Green(y, u, v) as real + 0.114 * Blue(y, u) as real;
            y as real - 1.03 < luma < y as real + 0.03
  {
    ClipMeaning(y as real + 1.402 * (v as real - 128.0));
    ClipMeaning(y as real - 0.344 * (u as real - 128.0) - 0.714 * (v as real - 128.0));
    ClipMeaning(y as real + 1.772 * (u as real - 128.0));
  }

  /** Neutral chroma gives grey of exactly the luma value. */
  lemma NeutralIsGrey(y: byte)
    ensures Red(y, 128) == Green(y, 128, 128) == Blue(y, 128) == y
  {
    assert 1.402 * (128 as real - 128.0) == 0.0;
    assert 0.344 * (128 as real - 128.0) == 0.0;
    assert 0.714 * (128 as real - 128.0) == 0.0;
    assert 1.772 * (128 as real - 128.0) == 0.0;
    assert (y as real).Floor == y;
  }

  /** Red only falls with less V, blue only with less U, green only rises: the clipped channels are monotone. */
  lemma ChannelsAreMonotone(y: byte, u: byte, u': byte, v: byte, v': byte)
    requires u <= u' && v <= v'
    ensures Red(y, v) <= Red(y, v') && Blue(y, u) <= Blue(y, u') && Green(y, u', v') <= Green(y, u, v)
  {
    assert 1.402 * (v as real - 128.0) <= 1.402 * (v' as real - 128.0);
    assert 1.772 * (u as real - 128.0) <= 1.772 * (u' as real - 128.0);
    assert 0.344 * (u as real - 128.0) <= 0.344 * (u' as real - 128.0);
    assert 0.714 * (v as real - 128.0) <= 0.714 * (v' as real - 128.0);
  }

  /** The position of the U byte that the moving pointer reads for column `c` of line `l`; V is two further. */
  function ChromaAt(width: nat, l: nat, c: nat): nat {
    4 * (l * (width / 2) + c / 2) + 1
  }

  /** The position the format prescribes for pixel number `k`: each four bytes are two pixels. */
  function FormatChromaAt(k: nat): nat {
    4 * (k / 2) + 1
  }

  /** A source byte. Positions past the end get a value only to make this total: ReadsFit excludes them. */
  function ByteAt(src: seq<byte>, i: nat): byte {
    if i < |src| then src[i] else 0
  }

  /** The three bytes of the pixel in column `c` of line `l`. */
  function Pixel(src: seq<byte>, width: nat, l: nat, c: nat): seq<byte> {
    var y, u := ByteAt(src, 2 * (l * width + c)), ByteAt(src, ChromaAt(width, l, c));
    var v := ByteAt(src, ChromaAt(width, l, c) + 2);
    [Red(y, v), Green(y, u, v), Blue(y, u)]
  }

  /** One past the highest source byte read for an image of the given size. */
  function SourceNeeded(width: nat, height: nat): nat {
    if width == 0 || height == 0 then 0
    else
      var y, v := 2 * (height * width - 1) + 1, ChromaAt(width, height - 1, width - 1) + 3;
      if y > v then y else v
  }

  /**
    The image is read from within its 2 * width * height bytes exactly when the width is even or there is not just
    one line; with an even width all of them are needed.
   */
  lemma SourceFitsIff(width: nat, height: nat)
    ensures SourceNeeded(width, height) <= 2 * (height * width) <==> width % 2 == 0 || height != 1
    ensures width % 2 == 0 ==> SourceNeeded(width, height) == 2 * (height * width)
  {
    if width == 0 || height == 0 {
      assert height * width == 0;
    } else {
      var h := width / 2;
      LastChroma(width, height);
      assert width % 2 == 1 ==> height * width == 2 * (height * h) + height;
      assert width % 2 == 0 ==> height * width == 2 * (height * h);
    }
  }

  lemma LastChroma(width: nat, height: nat)
    requires width > 0 && height > 0
    ensures ChromaAt(width, height - 1, width - 1) + 3
         == 4 * (height * (width / 2)) + if width % 2 == 0 then 0 else 4
    ensures height * width == 2 * (height * (width / 2)) + if width % 2 == 0 then 0 else height
  {
    var h := width / 2;
    assert (height - 1) * h + h == height * h;
    assert height * (2 * h) == 2 * (height * h) && height * (2 * h + 1) == 2 * (height * h) + height;
  }

  /**
    The moving pointers follow the format on the whole image exactly when the width is even, or the image is so
    small that the lost half pair at a line's end is never needed again.
   */
  lemma FollowsFormatIff(width: nat, height: nat)
    ensures (forall l: nat, c: nat :: l < height && c < width ==> ChromaAt(width, l, c) == FormatChromaAt(l * width + c))
       <==> (width % 2 == 0 || height <= 1 || (width == 1 && height <= 2))
  {
    if width % 2 == 0 {
      forall l: nat, c: nat | l < height && c < width
        ensures ChromaAt(width, l, c) == FormatChromaAt(l * width + c)
      {
        EvenPairs(width, l, c);
      }
    } else if height <= 1 {
      forall l: nat, c: nat | l < height && c < width
        ensures ChromaAt(width, l, c) == FormatChromaAt(l * width + c)
      {
        assert l == 0 && l * width == 0 && l * (width / 2) == 0;
      }
    } else if width == 1 {
      assert forall l: nat :: l * (width / 2) == 0;
      if height > 2 {
        assert ChromaAt(1, 2, 0) == 1 && FormatChromaAt(2 * 1 + 0) == 5;
      }
    } else {
      assert 1 * width == width && 1 * (width / 2) == width / 2;
      assert ChromaAt(width, 1, 1) != FormatChromaAt(1 * width + 1);
    }
  }

  lemma EvenPairs(width: nat, l: nat, c: nat)
    requires width % 2 == 0
    ensures (l * width + c) / 2 == l * (width / 2) + c / 2
  {
    var h := width / 2;
    assert width == 2 * h;
    assert l * width == 2 * (l * h) by { assert l * (2 * h) == 2 * (l * h); }
  }

  lemma MulGrows(a: nat, b: nat, d: nat)
    requires a >= b
    ensures a * d >= b * d
  {
    assert a * d == b * d + (a - b) * d;
  }

  lemma ReadsFit(width: nat, height: nat, l: nat, c: nat)
    requires l < height && c < width
    ensures 2 * (l * width + c) < SourceNeeded(width, height)
    ensures ChromaAt(width, l, c) + 2 < SourceNeeded(width, height)
    ensures l * width + c < height * width
  {
    MulGrows(height - 1, l, width);
    MulGrows(height - 1, l, width / 2);
    assert height * width == (height - 1) * width + width;
    assert c / 2 <= (width - 1) / 2;
  }

  lemma DivUnique(n: nat, d: nat, q: nat, r: nat)
    requires d > 0 && n == q * d + r && r < d
    ensures n / d == q && n % d == r
  {
    var q', r' := n / d, n % d;
    assert n == q' * d + r';
    if q' < q {
      MulGrows(q, q' + 1, d);
    } else if q < q' {
      MulGrows(q', q + 1, d);
    }
  }

  /** Line and column of pixel number `l * width + c`. */
  lemma LineAndColumn(width: nat, l: nat, c: nat)
    requires c < width
    ensures (l * width + c) / width == l && (l * width + c) % width == c
  {
    DivUnique(l * width + c, width, l, c);
  }

  /** Pixel number `k`, counted line by line. */
  function PixelNo(src: seq<byte>, width: nat, k: nat): seq<byte> {
    if width == 0 then [] else Pixel(src, width, k / width, k % width)
  }

  /** The three channels from a luma byte, a U byte and a V byte at the given positions. */
  function Mixed(src: seq<byte>, at: nat, uAt: nat, vAt: nat): seq<byte>
    requires at < |src| && uAt < |src| && vAt < |src|
  {
    var y, u, v := src[at] as real, src[uAt] as real, src[vAt] as real;
    [Clip(y + 1.402 * (v - 128.0)), Clip(y - 0.344 * (u - 128.0) - 0.714 * (v - 128.0)), Clip(y + 1.772 * (u - 128.0))]
  }

  /**
    With an even width, pixel number k, in column `c` of line `l`, mixes exactly the luma byte 2k and the two chroma
    bytes of its pair, U before V, by the three formulae.
   */
  lemma PixelReads(src: seq<byte>, width: nat, height: nat, l: nat, c: nat)
    requires width % 2 == 0 && |src| >= 2 * (height * width) && l < height && c < width
    ensures var k := l * width + c;
            && 4 * (k / 2) + 3 < |src| && 2 * k < |src|
            && PixelNo(src, width, k) == Mixed(src, 2 * k, 4 * (k / 2) + 1, 4 * (k / 2) + 3)
  {
    LineAndColumn(width, l, c);
    ChromaOfPixel(width, height, l * width + c, l, c);
    MixedPixel(src, width, l, c);
  }

  lemma ChromaOfPixel(width: nat, height: nat, k: nat, l: nat, c: nat)
    requires width % 2 == 0 && l * width + c == k && c < width && l < height
    ensures ChromaAt(width, l, c) == 4 * (k / 2) + 1 && 4 * (k / 2) + 3 < 2 * (height * width)
  {
    EvenPairs(width, l, c);
    SourceFitsIff(width, height);
    ReadsFit(width, height, l, c);
  }

  lemma MixedPixel(src: seq<byte>, width: nat, l: nat, c: nat)
    requires 2 * (l * width + c) < |src| && ChromaAt(width, l, c) + 2 < |src|
    ensures Pixel(src, width, l, c)
         == Mixed(src, 2 * (l * width + c), ChromaAt(width, l, c), ChromaAt(width, l, c) + 2)
  {}

  lemma LineOfPixel(width: nat, height: nat, k: nat, l: nat, c: nat)
    requires width > 0 && k < height * width && l == k / width && c == k % width
    ensures l * width + c == k && c < width && l < height
  {
    if l >= height {
      MulGrows(l, height, width);
    }
  }

  /** The first `n` pixels of an output buffer are the first `n` pixels of the image. */
  ghost predicate Drawn(src: seq<byte>, width: nat, height: nat, out: seq<byte>, n: nat) {
    && n <= height * width && 3 * n <= |out|
    && forall k: nat :: k < n ==> out[3 * k..3 * k + 3] == PixelNo(src, width, k)
  }

  lemma DrawOne(src: seq<byte>, width: nat, height: nat, was: seq<byte>, now: seq<byte>, n: nat)
    requires Drawn(src, width, height, was, n)
    requires n < height * width && 3 * n + 3 <= |now| == |was| && now[..3 * n] == was[..3 * n]
    requires now[3 * n..3 * n + 3] == PixelNo(src, width, n)
    ensures Drawn(src, width, height, now, n + 1)
  {
    forall k: nat | k < n
      ensures now[3 * k..3 * k + 3] == PixelNo(src, width, k)
    {
      assert now[3 * k..3 * k + 3] == now[..3 * n][3 * k..3 * k + 3] == was[..3 * n][3 * k..3 * k + 3];
    }
  }

  /** The three stores of one loop pass. */
  method PutPixel(dst: array<byte>, at: nat, r: byte, g: byte, b: byte)
    requires at + 3 <= dst.Length
    modifies dst
    ensures dst[at..at + 3] == [r, g, b] && dst[..at] == old(dst[..at]) && dst[at + 3..] == old(dst[at + 3..])
  {
    dst[at] := r;
    dst[at + 1] := g;
    dst[at + 2] := b;
  }

  /** The moving pointers stand at this line and column. */
  predicate PointAt(py: nat, pu: nat, pv: nat, tmp: nat, width: nat, l: nat, c: nat) {
    && py == 2 * (l * width + c) && tmp == 3 * (l * width + c)
    && pu == ChromaAt(width, l, c) && pv == pu + 2
  }

  lemma NextLine(py: nat, pu: nat, pv: nat, tmp: nat, width: nat, l: nat)
    requires PointAt(py, pu, pv, tmp, width, l, width)
    ensures PointAt(py, pu, pv, tmp, width, l + 1, 0) && (l + 1) * width == l * width + width
  {
    assert (l + 1) * width == l * width + width;
    assert (l + 1) * (width / 2) == l * (width / 2) + width / 2;
  }

  /** Pointers at a pixel inside the image stay inside both buffers and read that pixel's bytes. */
  lemma PointsInside(py: nat, pu: nat, pv: nat, tmp: nat, src: seq<byte>, width: nat, height: nat, l: nat, c: nat)
    requires PointAt(py, pu, pv, tmp, width, l, c) && l < height && c < width && |src| >= SourceNeeded(width, height)
    ensures py < |src| && pv < |src| && tmp == 3 * (l * width + c) && l * width + c < height * width
    ensures [Red(src[py], src[pv]), Green(src[py], src[pu], src[pv]), Blue(src[py], src[pu])]
         == PixelNo(src, width, l * width + c)
  {
    ReadsFit(width, height, l, c);
    LineAndColumn(width, l, c);
  }

  lemma NextColumn(py: nat, pu: nat, pv: nat, tmp: nat, width: nat, l: nat, c: nat)
    requires PointAt(py, pu, pv, tmp, width, l, c)
    ensures var d := if c % 2 == 1 then 4 else 0; PointAt(py + 2, pu + d, pv + d, tmp + 3, width, l, c + 1)
  {}

  /** One pass of the inner loop: three stores, then the pointers move on. */
  method DrawPixel(width: nat, height: nat, ghost line: nat, column: nat, src: array<byte>, dst: array<byte>,
                   py: nat, pu: nat, pv: nat, tmp: nat)
    returns (py': nat, pu': nat, pv': nat, tmp': nat)
    requires src != dst && line < height && column < width
    requires src.Length >= SourceNeeded(width, height) && tmp + 3 <= dst.Length
    requires PointAt(py, pu, pv, tmp, width, line, column)
    requires Drawn(src[..], width, height, dst[..], line * width + column)
    modifies dst
    ensures PointAt(py', pu', pv', tmp', width, line, column + 1) && tmp' == tmp + 3
    ensures Drawn(src[..], width, height, dst[..], line * width + column + 1)
    ensures dst[tmp'..] == old(dst[tmp + 3..])
  {
    PointsInside(py, pu, pv, tmp, src[..], width, height, line, column);
    NextColumn(py, pu, pv, tmp, width, line, column);
    ghost var was := dst[..];
    PutPixel(dst, tmp, Red(src[py], src[pv]), Green(src[py], src[pu], src[pv]), Blue(src[py], src[pu]));
    DrawOne(src[..], width, height, was, dst[..], line * width + column);
    tmp', py', pu', pv' := tmp + 3, py + 2, pu, pv;
    if column % 2 == 1 {
      pu' := pu + 4;
      pv' := pv + 4;
    }
  }

  /**
    `YUV422toRGB888` with its moving pointers as indices. Where C would store past the end of `dst`, this stops
    and answers false: exactly when the buffer is shorter than three bytes per pixel.
   */
  method Convert(width: nat, height: nat, src: array<byte>, dst: array<byte>) returns (inside: bool)
    requires src != dst && src.Length >= SourceNeeded(width, height)
    modifies dst
    ensures inside <==> dst.Length >= 3 * (height * width)
    ensures Drawn(src[..], width, height, dst[..], if inside then height * width else dst.Length / 3)
    ensures inside ==> dst[3 * (height * width)..] == old(dst[3 * (height * width)..])
  {
    var py, pu, pv, tmp := 0, 1, 3, 0;
    for line := 0 to height
      invariant PointAt(py, pu, pv, tmp, width, line, 0)
      invariant Drawn(src[..], width, height, dst[..], line * width)
      invariant tmp <= dst.Length && dst[tmp..] == old(dst[tmp..])
    {
      for column := 0 to width
        invariant PointAt(py, pu, pv, tmp, width, line, column)
        invariant Drawn(src[..], width, height, dst[..], line * width + column)
        invariant tmp <= dst.Length && dst[tmp..] == old(dst[tmp..])
      {
        if tmp + 3 > dst.Length {
          PointsInside(py, pu, pv, tmp, src[..], width, height, line, column);
          return false;
        }
        ghost var rest := dst[tmp..];
        py, pu, pv, tmp := DrawPixel(width, height, line, column, src, dst, py, pu, pv, tmp);
        assert old(dst[tmp..]) == rest[3..];
      }
      NextLine(py, pu, pv, tmp, width, line);
    }
    inside := true;
  }

  /** `process_image` up to the image writer: the output buffer has `size` bytes, the driver's byte count. */
  method ProcessImage(width: nat, height: nat, src: array<byte>, size: nat) returns (image: Option<seq<byte>>)
    requires src.Length >= SourceNeeded(width, height)
    ensures image.Some? <==> size >= 3 * (height * width)
    ensures image.Some? ==> Drawn(src[..], width, height, image.value, height * width)
  {
    var jpeg := new byte[size];
    var inside := Convert(width, height, src, jpeg);
    image := if inside then Some(jpeg[..]) else None;
  }

  /** The byte count of a frame in this format holds the frame, but never the converted image unless it is empty. */
  lemma FrameSizeIsTooSmall(width: nat, height: nat)
    ensures 2 * (height * width) >= 3 * (height * width) <==> width == 0 || height == 0
  {
    if width > 0 && height > 0 {
      MulGrows(height, 1, width);
    }
  }
}
