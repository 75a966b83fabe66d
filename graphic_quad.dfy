/** The cached cell data of one rendered block; everything it draws is left out. */
module GraphicQuad {

  class GraphicQuad {
    var data: seq<int>

    constructor ()
      ensures data == []
    {
      data := [];
    }

    /** `GraphicQuad.update`: the cell data is replaced wholesale by the incoming block. */
    method Update(x: int, y: int, data: seq<int>)
      modifies this
      ensures this.data == data
    {
      this.data := data;
    }
  }
}
