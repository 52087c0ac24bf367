/** A physical memory frame (simulator/frame.py). Its fields are changed only by the
    simulation engine, which keeps the frames in an array and overwrites an element
    with an updated value where the source assigns a field. */
module Frames {
  import opened Wrappers

  datatype Frame = Frame(index: int, page: Option<int>, loadedTime: int, lastAccessTime: int)
  {
    /** A frame is free exactly when it holds no page. */
    predicate IsFree()
    {
      page.None?
    }
  }

  /** `Frame(index=i)`: no page, and both timestamps at their default of -1. */
  function NewFrame(index: int): (f: Frame)
    ensures f.IsFree() && f.index == index
    ensures f.loadedTime == -1 && f.lastAccessTime == -1
  {
    Frame(index, None, -1, -1)
  }
}
