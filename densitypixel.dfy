/** backend/densityxpixel.py: a per-pixel density grid the size of a greyscale image, with a
    single-cell write and a rectangular-region write. The grid is numpy's `uint8` array of shape
    (height, width), indexed [row y, column x]. */
module DensityPixel {
  import opened Common

  /** DEFAULT_DPI: the print resolution the module documents; no computation uses it. */
  const DefaultDpi: nat := 300

  /** create_density_map for an image whose greyscale version is height x width: a fresh grid of
      that shape with every cell equal to defaultDensity, whatever dpi is. */
  method CreateDensityMap(height: nat, width: nat, defaultDensity: byte := 127, dpi: int := DefaultDpi) returns (m: array2<byte>)
    ensures fresh(m) && m.Length0 == height && m.Length1 == width
    ensures forall y, x :: 0 <= y < height && 0 <= x < width ==> m[y, x] == defaultDensity
  {
    m := new byte[height, width]((_, _) => defaultDensity);
  }

  /** set_pixel_density: cell [y, x] becomes density; no other cell changes. numpy raises on a
      column or row past the edge and wraps negative ones, so both must be inside the grid. */
  method SetPixelDensity(m: array2<byte>, x: int, y: int, density: byte)
    requires 0 <= y < m.Length0 && 0 <= x < m.Length1
    modifies m
    ensures m[y, x] == density
    ensures forall r, c :: 0 <= r < m.Length0 && 0 <= c < m.Length1 && (r, c) != (y, x) ==> m[r, c] == old(m[r, c])
  {
    m[y, x] := density;
  }

  /** Cell [r, c] lies in rows y0 .. y0+height-1 and columns x0 .. x0+width-1. */
  predicate InRegion(r: int, c: int, x0: int, y0: int, width: int, height: int) {
    y0 <= r < y0 + height && x0 <= c < x0 + width
  }

  /** set_region_density: the slice assignment `m[y0:y0+height, x0:x0+width] = density`. The slice
      stops at the grid's edges; every cell of the grid inside it becomes density, every other
      cell keeps its value. Non-negative corner and sizes are required, as numpy gives negative
      slice bounds a wrap-around meaning. */
  method SetRegionDensity(m: array2<byte>, x0: nat, y0: nat, width: nat, height: nat, density: byte)
    modifies m
    ensures forall r, c :: 0 <= r < m.Length0 && 0 <= c < m.Length1 ==>
              m[r, c] == if InRegion(r, c, x0, y0, width, height) then density else old(m[r, c])
    ensures width == 0 || height == 0 ==>
              forall r, c :: 0 <= r < m.Length0 && 0 <= c < m.Length1 ==> m[r, c] == old(m[r, c])
  {
    forall r, c | 0 <= r < m.Length0 && 0 <= c < m.Length1 && InRegion(r, c, x0, y0, width, height) {
      m[r, c] := density;
    }
  }
}
