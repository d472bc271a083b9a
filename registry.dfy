/** The surface registry (`CanvasManager`) and the command handlers that
    reach a surface through it by id: create, fill a rectangle, set the fill
    colour, read a region back and export a data URL. */
module Registry {
  import opened Wrappers
  import opened Ints
  import Colors
  import opened Canvas

  /** Every surface is created at this size. */
  const DefaultWidth: nat := 300
  const DefaultHeight: nat := 150

  const DataUrlPrefix: string := "data:image/png;base64,"

  /** How a command fails. `CanvasNotFound` is the lookup miss that makes
      `expect("Canvas not found")` panic; `ColorPanic` is a panic inside the
      colour parser. */
  datatype OpError = CanvasNotFound(id: nat) | ColorPanic(error: Colors.ColorError)

  /** What the rasteriser is handed for `fill_rect`: the buffer, the
      rectangle as given, and the context's paint and transform. */
  datatype FillRequest = FillRequest(pixmap: Pixmap, x: real, y: real, w: real, h: real, paint: Paint, transform: Transform)

  /** tiny_skia's `fill_rect`, kept abstract: it yields the new buffer
      contents, of the same size as the old. */
  type Rasterizer = f: FillRequest -> seq<u8> | forall q :: |f(q)| == |q.pixmap.data|
    witness (q: FillRequest) => q.pixmap.data

  /** PNG encoding followed by base64, kept abstract. */
  type Encoder = Pixmap -> string

  /** The text `to_data_url` returns for an encoded payload. */
  function DataUrl(payload: string): (url: string)
    ensures |url| == |DataUrlPrefix| + |payload|
    ensures url[..|DataUrlPrefix|] == DataUrlPrefix && url[|DataUrlPrefix|..] == payload
  {
    DataUrlPrefix + payload
  }

  /** A context as the registry keeps it: a default-sized surface whose
      pixel offsets are addressable. */
  predicate GoodContext(ctx: Context) {
    && ctx.pixmap.Valid() && ctx.pixmap.Addressable()
    && ctx.pixmap.width == DefaultWidth && ctx.pixmap.height == DefaultHeight
  }

  /** A freshly created context is one the registry can hold. */
  lemma DefaultContextIsGood()
    ensures GoodContext(NewContext(DefaultWidth, DefaultHeight))
  {
  }

  /** `CanvasManager`: the surfaces by id and the next id to hand out. */
  class CanvasManager {
    var contexts: map<nat, Context>
    var nextId: nat

    /** Ids are handed out below `nextId`, which stays a `u32`, and every
        stored context is a default-sized surface. */
    ghost predicate Valid()
      reads this
    {
      && nextId <= U32_MAX
      && (forall id :: id in contexts ==> id < nextId && GoodContext(contexts[id]))
    }

    /** `CanvasManager::new` and `init_state`: no surfaces, counter at 0. */
    constructor()
      ensures Valid()
      ensures contexts == map[] && nextId == 0
    {
      contexts := map[];
      nextId := 0;
    }

    /** `op_canvas_create`: the current counter value becomes the id of a
        new default-sized surface, and the counter moves on by one. The id
        was unused, and no other surface changes. */
    method Create() returns (id: nat)
      requires Valid() && nextId < U32_MAX
      modifies this
      ensures Valid()
      ensures id == old(nextId) && id !in old(contexts)
      ensures contexts == old(contexts)[id := NewContext(DefaultWidth, DefaultHeight)]
      ensures nextId == old(nextId) + 1
    {
      id := nextId;
      DefaultContextIsGood();
      contexts := contexts[id := NewContext(DefaultWidth, DefaultHeight)];
      nextId := nextId + 1;
    }

    /** `op_canvas_fill_rect`: on a miss nothing happens; on a hit the
        rasteriser redraws that surface's buffer with its paint and
        transform, and nothing else changes. */
    method FillRect(id: nat, x: real, y: real, w: real, h: real, raster: Rasterizer)
      requires Valid()
      modifies this
      ensures Valid() && nextId == old(nextId)
      ensures id !in old(contexts) ==> contexts == old(contexts)
      ensures id in old(contexts) ==>
        var ctx := old(contexts)[id];
        var data := raster(FillRequest(ctx.pixmap, x, y, w, h, ctx.paint, ctx.transform));
        contexts == old(contexts)[id := ctx.(pixmap := ctx.pixmap.(data := data))]
    {
      if id in contexts {
        var ctx := contexts[id];
        var data := raster(FillRequest(ctx.pixmap, x, y, w, h, ctx.paint, ctx.transform));
        contexts := contexts[id := ctx.(pixmap := ctx.pixmap.(data := data))];
      }
    }

    /** `op_canvas_set_fill_style`: on a miss nothing happens; on a hit the
        surface's paint colour becomes the parsed colour and nothing else
        changes, unless the parser panics, which leaves everything as it
        was. */
    method SetFillStyle(id: nat, colorText: string, num: Colors.NumberParser) returns (r: Result<(), OpError>)
      requires Valid()
      modifies this
      ensures Valid() && nextId == old(nextId)
      ensures id !in old(contexts) ==> r == Ok(()) && contexts == old(contexts)
      ensures id in old(contexts) ==>
        match Colors.ParseCssColor(colorText, num)
        case Ok(color) =>
          var ctx := old(contexts)[id];
          r == Ok(()) && contexts == old(contexts)[id := ctx.(paint := ctx.paint.(color := color))]
        case Err(e) => r == Err(ColorPanic(e)) && contexts == old(contexts)
    {
      r := Ok(());
      if id in contexts {
        match Colors.ParseCssColor(colorText, num)
        case Ok(color) =>
          var ctx := contexts[id];
          contexts := contexts[id := ctx.(paint := ctx.paint.(color := color))];
        case Err(e) =>
          r := Err(ColorPanic(e));
      }
    }

    /** `op_canvas_get_image_data`: a miss fails with `CanvasNotFound`; a hit
        yields that surface's straight-alpha readback of the rectangle. */
    method GetImageData(id: nat, x: i32, y: i32, w: i32, h: i32) returns (r: Result<seq<u8>, OpError>)
      requires Valid()
      requires RegionFits(x as int, y as int, w as int, h as int)
      ensures id !in contexts ==> r == Err(CanvasNotFound(id))
      ensures id in contexts ==> r == Ok(Region(Straight(contexts[id].pixmap), x as int, y as int, w as int, h as int))
    {
      if id !in contexts {
        return Err(CanvasNotFound(id));
      }
      var ctx := contexts[id];
      var bytes := ctx.GetUnpremultipliedRect(x, y, w, h);
      r := Ok(bytes);
    }

    /** `op_canvas_to_data_url`: a miss fails with `CanvasNotFound`; a hit
        yields the data URL of that surface's encoded buffer. */
    method ToDataUrl(id: nat, encode: Encoder) returns (r: Result<string, OpError>)
      ensures id !in contexts ==> r == Err(CanvasNotFound(id))
      ensures id in contexts ==> r == Ok(DataUrl(encode(contexts[id].pixmap)))
    {
      if id !in contexts {
        return Err(CanvasNotFound(id));
      }
      var payload := encode(contexts[id].pixmap);
      r := Ok(DataUrl(payload));
    }
  }
}
