/** Pixel buffers, and copying one image into a rectangle of another. */
module AtlasImage {
  import opened Basics
  import opened AtlasTree

  datatype Pixel = Pixel(red: Byte, green: Byte, blue: Byte, alpha: Byte)

  /** What can be read back after a pixel has been stored with three or four channels. */
  function Shown(p: Pixel, channels: int): Pixel {
    if channels == 3 then p.(alpha := 255) else p
  }

  /** Where the pixel (x, y) starts in the buffer. */
  function Index(x: nat, y: nat, width: nat, channels: nat): nat {
    (x + y * width) * channels
  }

  /** Multiples of `c` are at least `c` apart. */
  lemma {:induction false} Steps(a: nat, b: nat, c: nat)
    requires a < b
    ensures a * c + c <= b * c
  {
    if a + 1 < b {
      Steps(a, b - 1, c);
    }
    assert b * c == (b - 1) * c + c;
  }

  lemma IndexInRange(x: nat, y: nat, width: nat, height: nat, channels: nat)
    requires x < width && y < height
    ensures Index(x, y, width, channels) + channels <= width * height * channels
  {
    Steps(y, height, width);
    Steps(x + y * width, height * width, channels);
    assert height * width == width * height;
  }

  /** The size in bytes, which is computed as an int, does not overflow. */
  predicate SizeFits(width: nat, height: nat, channels: nat) {
    width * height * channels < INT_LIMIT
  }

  ghost predicate IndexFits(x: nat, y: nat, width: nat, channels: nat) {
    x + y * width < INT_LIMIT && Index(x, y, width, channels) + channels - 1 < INT_LIMIT
  }

  /** The last byte of every pixel can be indexed by an int exactly when there are at most 2^31 bytes:
      one more than their number may be. So the size and every index fit an int exactly when there are
      fewer than 2^31. */
  lemma IndicesFitIff(width: nat, height: nat, channels: nat)
    requires width > 0 && height > 0 && channels > 0
    ensures (forall x: nat, y: nat :: x < width && y < height ==> IndexFits(x, y, width, channels))
            <==> width * height * channels <= INT_LIMIT
    ensures SizeFits(width, height, channels) <==>
            && width * height * channels < INT_LIMIT
            && (forall x: nat, y: nat :: x < width && y < height ==> IndexFits(x, y, width, channels))
  {
    if width * height * channels <= INT_LIMIT {
      forall x: nat, y: nat | x < width && y < height ensures IndexFits(x, y, width, channels) {
        IndexInRange(x, y, width, height, channels);
        AtLeastOnce(x + y * width, channels);
      }
    }
    LastIndex(width, height, channels);
    assert IndexFits(width - 1, height - 1, width, channels) ==> width * height * channels <= INT_LIMIT;
  }

  lemma AtLeastOnce(n: nat, c: nat)
    requires c > 0
    ensures n <= n * c
  {
    if n > 0 {
      Steps(0, c, n);
    }
  }

  lemma LastIndex(width: nat, height: nat, channels: nat)
    requires width > 0 && height > 0
    ensures Index(width - 1, height - 1, width, channels) + channels == width * height * channels
  {
    assert (width - 1) + (height - 1) * width == width * height - 1;
  }

  /** Distinct pixels use distinct bytes. */
  lemma IndexApart(x: nat, y: nat, x': nat, y': nat, width: nat, channels: nat)
    requires x < width && x' < width && (x != x' || y != y')
    ensures var i, j := Index(x, y, width, channels), Index(x', y', width, channels);
            i + channels <= j || j + channels <= i
  {
    if y < y' {
      Steps(y, y', width);
    } else if y' < y {
      Steps(y', y, width);
    }
    if x + y * width < x' + y' * width {
      Steps(x + y * width, x' + y' * width, channels);
    } else {
      Steps(x' + y' * width, x + y * width, channels);
    }
  }

  class Image {
    const width: nat
    const height: nat
    const channels: nat
    const pixels: array<Byte>

    /** The buffer has the size that the three numbers say. */
    predicate Backed() {
      pixels.Length == width * height * channels
    }

    predicate Fits() {
      SizeFits(width, height, channels)
    }

    predicate Supported() {
      channels == 1 || channels == 3 || channels == 4
    }

    ghost predicate Valid() {
      Backed() && Fits() && Supported()
    }

    /** A black image. */
    constructor (width: nat, height: nat, channels: nat)
      requires SizeFits(width, height, channels) && (channels == 3 || channels == 4)
      ensures Valid() && fresh(pixels)
      ensures this.width == width && this.height == height && this.channels == channels
      ensures forall x, y :: InRange(x, y) ==> At(x, y) == Shown(Pixel(0, 0, 0, 0), channels)
    {
      this.width, this.height, this.channels := width, height, channels;
      pixels := new Byte[width * height * channels](_ => 0);
      new;
      forall x: int, y: int | InRange(x, y) ensures At(x, y) == Shown(Pixel(0, 0, 0, 0), channels) {
        IndexInRange(x, y, width, height, channels);
      }
    }

    predicate InRange(x: int, y: int) {
      0 <= x < width && 0 <= y < height
    }

    ghost function At(x: int, y: int): Pixel
      requires Valid() && InRange(x, y)
      reads pixels
    {
      IndexInRange(x, y, width, height, channels);
      var i := Index(x, y, width, channels);
      if channels == 1 then Pixel(pixels[i], pixels[i], pixels[i], 255)
      else Pixel(pixels[i], pixels[i + 1], pixels[i + 2], if channels == 4 then pixels[i + 3] else 255)
    }

    method GetPixel(x: int, y: int) returns (threw: bool, p: Pixel)
      requires Backed() && Fits() && InRange(x, y)
      ensures threw <==> !Supported()
      ensures Supported() ==> p == At(x, y)
    {
      IndexInRange(x, y, width, height, channels);
      var i := Index(x, y, width, channels);
      threw, p := false, Pixel(0, 0, 0, 255);
      if channels == 4 {
        p := Pixel(pixels[i], pixels[i + 1], pixels[i + 2], pixels[i + 3]);
      } else if channels == 3 {
        p := Pixel(pixels[i], pixels[i + 1], pixels[i + 2], 255);
      } else if channels == 1 {
        p := Pixel(pixels[i], pixels[i], pixels[i], 255);
      } else {
        threw := true;
      }
    }

    /** The channels of the pixel lie one behind the other, red first. */
    predicate Holds(x: int, y: int, p: Pixel)
      requires Backed() && InRange(x, y) && channels >= 3
      reads pixels
    {
      IndexInRange(x, y, width, height, channels);
      var i := Index(x, y, width, channels);
      && pixels[i] == p.red && pixels[i + 1] == p.green && pixels[i + 2] == p.blue
      && (channels == 4 ==> pixels[i + 3] == p.alpha)
    }

    method SetPixel(x: int, y: int, p: Pixel) returns (threw: bool)
      requires Backed() && Fits() && InRange(x, y) && channels != 1
      modifies pixels
      ensures threw <==> !Supported()
      ensures threw ==> pixels[..] == old(pixels[..])
      ensures Supported() ==> Holds(x, y, p)
      ensures Supported() ==> At(x, y) == Shown(p, channels)
      ensures Supported() ==> forall u, v :: InRange(u, v) && (u != x || v != y) ==> At(u, v) == old(At(u, v))
    {
      if channels != 4 && channels != 3 {
        return true;
      }
      threw := false;
      IndexInRange(x, y, width, height, channels);
      var i := Index(x, y, width, channels);
      pixels[i] := p.red;
      pixels[i + 1] := p.green;
      pixels[i + 2] := p.blue;
      if channels == 4 {
        pixels[i + 3] := p.alpha;
      }
      forall u: int, v: int | InRange(u, v) && (u != x || v != y) ensures At(u, v) == old(At(u, v)) {
        IndexInRange(u, v, width, height, channels);
        IndexApart(u, v, x, y, width, channels);
      }
    }
  }

  /** The rectangle `r` of the atlas shows the image. */
  ghost predicate Painted(atlas: Image, img: Image, r: Rect)
    requires atlas.Valid() && img.Valid()
    requires 0 <= r.x && 0 <= r.y && r.x + img.width <= atlas.width && r.y + img.height <= atlas.height
    reads atlas.pixels, img.pixels
  {
    forall x, y :: img.InRange(x, y) ==> atlas.At(r.x + x, r.y + y) == Shown(img.At(x, y), atlas.channels)
  }

  /** Copies the image into `r`, column by column, and changes nothing outside. */
  method Blit(atlas: Image, img: Image, r: Rect)
    requires atlas.Valid() && atlas.channels != 1 && img.Valid() && atlas.pixels != img.pixels
    requires 0 <= r.x && 0 <= r.y && r.x + r.w <= atlas.width && r.y + r.h <= atlas.height
    requires r.w == img.width && r.h == img.height
    modifies atlas.pixels
    ensures Painted(atlas, img, r)
    ensures forall u, v :: atlas.InRange(u, v) && !Covers(r, u, v) ==> atlas.At(u, v) == old(atlas.At(u, v))
  {
    var xo := 0;
    while xo < r.w
      invariant 0 <= xo <= r.w
      invariant forall x, y :: img.InRange(x, y) && x < xo ==>
                  atlas.At(r.x + x, r.y + y) == Shown(img.At(x, y), atlas.channels)
      invariant forall u, v :: atlas.InRange(u, v) && !Covers(r, u, v) ==> atlas.At(u, v) == old(atlas.At(u, v))
    {
      var yo := 0;
      while yo < r.h
        invariant 0 <= yo <= r.h
        invariant forall x, y :: img.InRange(x, y) && (x < xo || (x == xo && y < yo)) ==>
                    atlas.At(r.x + x, r.y + y) == Shown(img.At(x, y), atlas.channels)
        invariant forall u, v :: atlas.InRange(u, v) && !Covers(r, u, v) ==> atlas.At(u, v) == old(atlas.At(u, v))
      {
        var _, p := img.GetPixel(xo, yo);
        var _ := atlas.SetPixel(r.x + xo, r.y + yo, p);
        yo := yo + 1;
      }
      xo := xo + 1;
    }
  }
}
