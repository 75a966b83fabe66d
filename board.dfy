/**
 * Cell values and the block store of the board: the letter enumeration in the low seven
 * bits of a cell value, its display character, and the dictionary of blocks keyed by block
 * coordinates.
 */
module Board {
  import opened Wrappers

  /** The `Character` enumeration: none = 0, dash = 1, then a = 2 up to z = 27. */
  const CharNone: int := 0
  const CharDash: int := 1
  const CharA: int := 2
  const CharZ: int := 27

  /**
   * `value & 0x7f`. JavaScript first converts the number to a 32-bit two's-complement
   * integer; the seven low bits of that are the value modulo 128 for every integer.
   */
  function ToCellEnum(value: int): (r: int)
    ensures 0 <= r < 128
    ensures 0 <= value < 128 ==> r == value
    ensures (value - r) % 128 == 0
  {
    value % 128
  }

  /** On a byte the mask is the bitwise and with 0x7f: bit 7 is dropped, bits 0-6 kept. */
  lemma CellEnumIsMask(b: bv8)
    ensures ToCellEnum(b as int) == (b & 0x7f) as int
  {
    assert b as int == (b & 0x7f) as int + (if b & 0x80 == 0 then 0 else 128);
  }

  /** The display string of a cell value: the 28-case table over the masked value. */
  function ToCellChar(value: int): (s: string)
    ensures |s| <= 1
    ensures s == "" <==> ToCellEnum(value) > CharZ
  {
    match ToCellEnum(value)
    case 0 => " "
    case 1 => "-"
    case 2 => "a"
    case 3 => "b"
    case 4 => "c"
    case 5 => "d"
    case 6 => "e"
    case 7 => "f"
    case 8 => "g"
    case 9 => "h"
    case 10 => "i"
    case 11 => "j"
    case 12 => "k"
    case 13 => "l"
    case 14 => "m"
    case 15 => "n"
    case 16 => "o"
    case 17 => "p"
    case 18 => "q"
    case 19 => "r"
    case 20 => "s"
    case 21 => "t"
    case 22 => "u"
    case 23 => "v"
    case 24 => "w"
    case 25 => "x"
    case 26 => "y"
    case 27 => "z"
    case _ => ""
  }

  /** Bit 7 (the blocked flag) and any higher bit do not change the character. */
  lemma CellCharIgnoresHighBits(value: int)
    ensures ToCellChar(value) == ToCellChar(ToCellEnum(value))
    ensures ToCellChar(value + 128) == ToCellChar(value)
  {
  }

  lemma CellCharTable(value: int)
    ensures ToCellEnum(value) == CharNone ==> ToCellChar(value) == " "
    ensures ToCellEnum(value) == CharDash ==> ToCellChar(value) == "-"
    ensures CharA <= ToCellEnum(value) <= CharZ ==>
      ToCellChar(value) == [(('a' as int) + ToCellEnum(value) - CharA) as char]
    ensures CharZ < ToCellEnum(value) ==> ToCellChar(value) == ""
  {
  }

  /** Exactly the 26 letter values display as one lower-case letter. */
  lemma CellCharIsLetter(value: int)
    ensures (|ToCellChar(value)| == 1 && 'a' <= ToCellChar(value)[0] <= 'z')
        <==> CharA <= ToCellEnum(value) <= CharZ
  {
    CellCharTable(value);
  }

  /** `toGridBlock`: the dictionary key of a block; the text "x y" is modelled as the pair. */
  function ToGridBlock(x: int, y: int): (key: (int, int))
    ensures key.0 == x && key.1 == y
  {
    (x, y)
  }

  /** A cached block: its block coordinates and its cell values. */
  class Block {
    var data: seq<int>
    var y: int
    var x: int

    constructor ()
      ensures data == [] && x == 0 && y == 0
    {
      data := [];
      y := 0;
      x := 0;
    }

    /** `Block.set`: the three fields replaced wholesale. */
    method Set(x: int, y: int, data: seq<int>)
      modifies this
      ensures this.x == x && this.y == y && this.data == data
    {
      this.x := x;
      this.y := y;
      this.data := data;
    }
  }

  /** The module-level `blocks` dictionary. */
  class BlockStore {
    var blocks: map<(int, int), Block>

    /** Distinct keys hold distinct blocks, and each block records its own key. */
    ghost predicate Valid()
      reads this, blocks.Values
    {
      && (forall k, k' :: k in blocks && k' in blocks && k != k' ==> blocks[k] != blocks[k'])
      && (forall k :: k in blocks ==> (blocks[k].x, blocks[k].y) == k)
    }

    /** The cell data held under every key. */
    ghost function Contents(): map<(int, int), seq<int>>
      reads this, blocks.Values
    {
      map k | k in blocks :: blocks[k].data
    }

    constructor ()
      ensures Valid() && blocks == map[]
    {
      blocks := map[];
    }

    /** `setBlock` without its rendering step. */
    method SetBlock(x: int, y: int, data: seq<int>)
      requires Valid()
      modifies this, blocks.Values
      ensures Valid()
      ensures blocks.Keys == old(blocks.Keys) + {ToGridBlock(x, y)}
      ensures ToGridBlock(x, y) in old(blocks) ==> blocks == old(blocks)
      ensures ToGridBlock(x, y) !in old(blocks) ==> fresh(blocks[ToGridBlock(x, y)])
      ensures Contents() == old(Contents())[ToGridBlock(x, y) := data]
      ensures forall k :: k in old(blocks) && k != ToGridBlock(x, y) ==>
        blocks[k] == old(blocks[k]) && unchanged(blocks[k])
    {
      var key := ToGridBlock(x, y);
      if key !in blocks {
        var b := new Block();
        blocks := blocks[key := b];
      }
      blocks[key].Set(x, y, data);
    }

    /** `getBlock`: the block stored under the key, if any. */
    function GetBlock(x: int, y: int): (r: Option<Block>)
      reads this
      ensures r.Some? <==> ToGridBlock(x, y) in blocks
      ensures r.Some? ==> r.value == blocks[ToGridBlock(x, y)]
    {
      var key := ToGridBlock(x, y);
      if key in blocks then Some(blocks[key]) else None
    }
  }

  /** What a client observes: after setBlock, getBlock at that key yields the data just stored. */
  method SetThenGet(store: BlockStore, x: int, y: int, data: seq<int>) returns (b: Block)
    requires store.Valid()
    modifies store, store.blocks.Values
    ensures store.Valid()
    ensures b.x == x && b.y == y && b.data == data
    ensures store.GetBlock(x, y) == Some(b)
  {
    store.SetBlock(x, y, data);
    b := store.GetBlock(x, y).value;
    assert store.Contents()[(x, y)] == b.data;
  }
}
