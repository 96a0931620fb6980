/** The editing sessions of client/src/preview.js: one `previewItems` entry per decoded image, the
    `painting` flag its mouse handlers share, and the reset button that restores every snapshot. */
module PreviewSession {
  import opened Common
  import opened Preview

  /** `dm.map.slice()`: a fresh copy of a map's bytes. */
  method Slice(a: array<byte>) returns (b: array<byte>)
    ensures fresh(b) && b[..] == a[..]
  {
    b := new byte[a.Length];
    var i := 0;
    while i < a.Length
      invariant 0 <= i <= a.Length
      invariant b[..i] == a[..i]
    {
      b[i] := a[i];
      i := i + 1;
    }
    assert b[..] == b[..i];
  }

  /** `dst.set(src)` for arrays of equal length: overwrite dst with src's bytes. */
  method CopyInto(dst: array<byte>, src: array<byte>)
    requires dst.Length == src.Length && dst != src
    modifies dst
    ensures dst[..] == src[..]
  {
    var i := 0;
    while i < src.Length
      invariant 0 <= i <= src.Length
      invariant dst[..i] == src[..i]
    {
      dst[i] := src[i];
      i := i + 1;
    }
    assert dst[..] == dst[..i];
  }

  /** One `previewItems` entry `{dm, originalMap, img, ctx}`, with the `painting` flag of the
      closure that registered its mouse handlers. `img` is the image's RGBA bytes as drawImage
      puts them on the canvas; `canvas` is the canvas's own RGBA buffer. */
  class Session {
    const dm: DensityMap
    const originalMap: array<byte>
    const img: seq<byte>
    const canvas: array<byte>
    /** The density slider's value when the image was loaded: the fill of the snapshot. */
    ghost const loadDensity: byte
    var painting: bool

    ghost function Arrays(): set<object> {
      {dm.cells, originalMap, canvas}
    }

    /** The session's invariant: a map of positive area, three distinct buffers of matching
        sizes, a snapshot that still holds the load-time fill, and a canvas that shows the current
        map's threshold render. */
    ghost predicate Valid()
      reads dm.cells, originalMap, canvas
    {
      && dm.Valid() && dm.width > 0 && dm.height > 0
      && dm.cells != originalMap && dm.cells != canvas && originalMap != canvas
      && originalMap.Length == dm.cells.Length
      && |img| == canvas.Length == 4 * dm.cells.Length
      && (forall k :: 0 <= k < originalMap.Length ==> originalMap[k] == loadDensity)
      && canvas[..] == Thresholded(img, dm.cells[..])
    }

    /** Valid depends only on the session's three buffers. */
    twostate lemma ValidFrame()
      requires old(Valid())
      requires unchanged(dm.cells) && unchanged(originalMap) && unchanged(canvas)
      ensures Valid()
    {
    }

    /** The img.onload handler: create the map filled with the slider's density, take its
        snapshot, render it onto a fresh canvas of the image's size. An image of zero width or
        height never gets this far: see Page.Add. */
    constructor (img: seq<byte>, width: nat, height: nat, defaultD: byte)
      requires |img| == 4 * (width * height) && width > 0 && height > 0
      ensures Valid() && fresh(Arrays())
      ensures this.img == img && dm.width == width && dm.height == height && loadDensity == defaultD
      ensures forall k :: 0 <= k < dm.cells.Length ==> dm.cells[k] == defaultD
      ensures !painting
    {
      var m := new DensityMap(width, height, defaultD);
      var snapshot := Slice(m.cells);
      var c := new byte[4 * (width * height)];
      ApplyDensityMap(img, m, c);
      dm, originalMap, this.img, canvas := m, snapshot, img, c;
      loadDensity := defaultD;
      painting := false;
    }

    /** The canvas's mousedown handler. */
    method MouseDown()
      modifies this
      ensures painting
    {
      painting := true;
    }

    /** The canvas's mousemove handler: map the mouse position to a buffer cell and, only while
        painting, stamp the brush there and re-render. */
    method MouseMove(clientX: real, clientY: real, rect: Rect, brushSize: int, brushD: byte)
      requires Valid() && rect.width > 0.0 && rect.height > 0.0
      modifies dm.cells, canvas
      ensures Valid()
      ensures var mx := ToBufferCoord(clientX, rect.left, dm.width, rect.width);
              var my := ToBufferCoord(clientY, rect.top, dm.height, rect.height);
              dm.cells[..] == if painting then Stamped(old(dm.cells[..]), dm.width, dm.height, mx, my, brushSize, brushD)
                              else old(dm.cells[..])
    {
      var mx := ToBufferCoord(clientX, rect.left, dm.width, rect.width);
      var my := ToBufferCoord(clientY, rect.top, dm.height, rect.height);
      if painting {
        dm.Paint(mx, my, brushSize, brushD);
        ApplyDensityMap(img, dm, canvas);
      }
    }

    /** One iteration of the reset handler: copy the snapshot back and re-render. */
    method Restore()
      requires Valid()
      modifies dm.cells, canvas
      ensures Valid()
      ensures dm.cells[..] == originalMap[..]
      ensures forall k :: 0 <= k < dm.cells.Length ==> dm.cells[k] == loadDensity
    {
      CopyInto(dm.cells, originalMap);
      ApplyDensityMap(img, dm, canvas);
    }
  }

  /** The module-level state of preview.js: the `previewItems` list. */
  class Page {
    var items: seq<Session>

    ghost function MapCells(): set<array<byte>>
      reads this
    {
      set s | s in items :: s.dm.cells
    }

    ghost function Snapshots(): set<array<byte>>
      reads this
    {
      set s | s in items :: s.originalMap
    }

    ghost function Canvases(): set<array<byte>>
      reads this
    {
      set s | s in items :: s.canvas
    }

    ghost function Sessions(): set<Session>
      reads this
    {
      set s | s in items
    }

    /** Every session is valid and no two sessions share a buffer. */
    ghost predicate Valid()
      reads this, MapCells(), Snapshots(), Canvases()
    {
      && (forall i :: 0 <= i < |items| ==> items[i].Valid())
      && (forall i, j :: 0 <= i < j < |items| ==> items[i].Arrays() !! items[j].Arrays())
    }

    constructor ()
      ensures Valid() && items == []
    {
      items := [];
    }

    /** The file input's change handler starts by emptying the list. */
    method Clear()
      modifies this
      ensures Valid() && items == []
    {
      items := [];
    }

    /** An image finished decoding: build its session and push it. For an image of zero width
        or height, the handler's first applyDensityMap throws at getImageData, before the push,
        so the list is left as it was and no session is returned. */
    method Add(img: seq<byte>, width: nat, height: nat, defaultD: byte) returns (added: Option<Session>)
      requires Valid() && |img| == 4 * (width * height)
      modifies this
      ensures Valid()
      ensures width == 0 || height == 0 ==> added == None && items == old(items)
      ensures width > 0 && height > 0 ==>
                && added.Some? && fresh(added.value) && fresh(added.value.Arrays())
                && items == old(items) + [added.value]
                && added.value.img == img && added.value.dm.width == width && added.value.dm.height == height
                && added.value.loadDensity == defaultD && !added.value.painting
                && forall k :: 0 <= k < added.value.dm.cells.Length ==> added.value.dm.cells[k] == defaultD
    {
      if width == 0 || height == 0 {
        return None;
      }
      var s := new Session(img, width, height, defaultD);
      assert forall j :: 0 <= j < |items| ==> items[j].Arrays() !! s.Arrays();
      items := items + [s];
      added := Some(s);
    }

    /** mousedown on the canvas of session k. */
    method MouseDown(k: nat)
      requires Valid() && k < |items|
      modifies items[k]
      ensures Valid() && items[k].painting
      ensures forall j :: 0 <= j < |items| && j != k ==> items[j].painting == old(items[j].painting)
    {
      items[k].MouseDown();
    }

    /** mouseup anywhere in the window: every session's handler clears its flag. */
    method MouseUp()
      requires Valid()
      modifies Sessions()
      ensures Valid()
      ensures forall j :: 0 <= j < |items| ==> !items[j].painting
    {
      var i := 0;
      while i < |items|
        invariant 0 <= i <= |items|
        invariant forall j :: 0 <= j < i ==> !items[j].painting
      {
        items[i].painting := false;
        i := i + 1;
      }
    }

    /** mousemove over the canvas of session k: only that session's map and canvas can change. */
    method MouseMove(k: nat, clientX: real, clientY: real, rect: Rect, brushSize: int, brushD: byte)
      requires Valid() && k < |items| && rect.width > 0.0 && rect.height > 0.0
      modifies items[k].dm.cells, items[k].canvas
      ensures Valid()
      ensures var s := items[k];
              var mx := ToBufferCoord(clientX, rect.left, s.dm.width, rect.width);
              var my := ToBufferCoord(clientY, rect.top, s.dm.height, rect.height);
              s.dm.cells[..] == if s.painting then Stamped(old(s.dm.cells[..]), s.dm.width, s.dm.height, mx, my, brushSize, brushD)
                                else old(s.dm.cells[..])
      ensures forall j :: 0 <= j < |items| && j != k ==>
                items[j].dm.cells[..] == old(items[j].dm.cells[..]) && items[j].canvas[..] == old(items[j].canvas[..])
    {
      var s := items[k];
      label before:
      s.MouseMove(clientX, clientY, rect, brushSize, brushD);
      forall j | 0 <= j < |items| && j != k
        ensures items[j].Valid()
        ensures items[j].dm.cells[..] == old@before(items[j].dm.cells[..])
        ensures items[j].canvas[..] == old@before(items[j].canvas[..])
      {
        var t := items[j];
        assert t.Arrays() !! s.Arrays();
        assert unchanged@before(t.dm.cells) && unchanged@before(t.originalMap) && unchanged@before(t.canvas);
        t.ValidFrame@before();
      }
    }

    /** The reset button: every session's map gets its snapshot back and is re-rendered. */
    method Reset()
      requires Valid()
      modifies MapCells(), Canvases()
      ensures Valid()
      ensures forall j :: 0 <= j < |items| ==> items[j].dm.cells[..] == items[j].originalMap[..]
      ensures forall j :: 0 <= j < |items| ==>
                forall c :: 0 <= c < items[j].dm.cells.Length ==> items[j].dm.cells[c] == items[j].loadDensity
    {
      var i := 0;
      while i < |items|
        invariant 0 <= i <= |items|
        invariant Valid()
        invariant forall j :: 0 <= j < i ==> items[j].dm.cells[..] == items[j].originalMap[..]
      {
        RestoreAt(i);
        i := i + 1;
      }
    }

    /** One iteration of the reset handler's forEach: session k is restored, and no other
        session's buffers change. */
    method RestoreAt(k: nat)
      requires Valid() && k < |items|
      modifies items[k].dm.cells, items[k].canvas
      ensures Valid()
      ensures items[k].dm.cells[..] == items[k].originalMap[..]
      ensures forall j :: 0 <= j < |items| && j != k ==> items[j].dm.cells[..] == old(items[j].dm.cells[..])
    {
      var s := items[k];
      label before:
      s.Restore();
      forall j | 0 <= j < |items| && j != k
        ensures items[j].Valid()
        ensures items[j].dm.cells[..] == old@before(items[j].dm.cells[..])
      {
        var t := items[j];
        assert t.Arrays() !! s.Arrays();
        assert unchanged@before(t.dm.cells) && unchanged@before(t.originalMap) && unchanged@before(t.canvas);
        t.ValidFrame@before();
      }
    }
  }
}
