/**
 The per-instance record of the filter (`struct filter`) and what the host
 hands it on each render callback.
 */
module FilterData {
  import opened Obs

  /** A width/height pair as the filter compares them. */
  datatype Size = Size(width: U32, height: U32) {
    /** The filter treats a size with either dimension zero as invalid. */
    predicate IsZero() {
      width == 0 || height == 0
    }
  }

  /** `struct filter`: the source the filter is attached to, the texrender
      it draws into, the texture pointer last read out of it, and the last
      observed size of the parent source. */
  datatype Filter = Filter(
    context: Ptr,
    texrender: Ptr,
    texture: Ptr,
    textureWidth: U32,
    textureHeight: U32)
  {
    function StoredSize(): Size {
      Size(textureWidth, textureHeight)
    }
  }

  /** Everything one render callback learns from outside: the parent that
      `obs_filter_get_parent` returns, its base size, whether
      `gs_texrender_begin` succeeds, and the pointer
      `gs_texrender_get_texture` returns. */
  datatype Frame = Frame(parent: Ptr, width: U32, height: U32, begun: bool, fetched: Ptr) {
    function Observed(): Size {
      Size(width, height)
    }
  }

  /** The filter's state after some code ran, with the commands it issued. */
  datatype Outcome = Outcome(filter: Filter, trace: seq<Command>)
}
