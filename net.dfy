/**
 * The client's outbound `set_view` message: a tag byte followed by four unsigned 32-bit
 * little-endian fields, x, y, width and height, in a 17-byte buffer.
 */
module Net {
  import opened Wrappers
  import opened Bytes

  /** The `MessageID` enumeration: one tag space shared by both directions. */
  datatype MessageID = SetView | SyncBlock

  function MessageTag(m: MessageID): (tag: byte)
    ensures tag == (if m.SetView? then 0 else 1)
  {
    match m
    case SetView => 0
    case SyncBlock => 1
  }

  lemma MessageTagsDistinct(a: MessageID, b: MessageID)
    ensures MessageTag(a) == MessageTag(b) <==> a == b
  {
  }

  const ViewRectLength: nat := 1 + 4 + 4 + 4 + 4

  /** What `setUint32` stores for an integer argument: ToUint32, i.e. the value modulo 2^32. */
  function ToUint32(v: int): (r: nat)
    ensures r < U32Limit
    ensures 0 <= v < U32Limit ==> r == v
    ensures (v - r) % U32Limit == 0
  {
    v % U32Limit
  }

  datatype ViewRect = ViewRect(x: int, y: int, width: int, height: int)

  /** The bytes of the set_view message, field by field. */
  function ViewRectBytes(r: ViewRect): (s: seq<byte>)
    ensures |s| == ViewRectLength
  {
    [MessageTag(SetView)] + LE32(ToUint32(r.x)) + LE32(ToUint32(r.y))
      + LE32(ToUint32(r.width)) + LE32(ToUint32(r.height))
  }

  /** A reader of the set_view layout (the server's side of the message). */
  function DecodeViewRect(s: seq<byte>): (r: Option<ViewRect>)
    ensures r.Some? ==> |s| == ViewRectLength && s[0] == MessageTag(SetView)
  {
    if |s| == ViewRectLength && s[0] == MessageTag(SetView) then
      Some(ViewRect(U32(s, 1).value, U32(s, 5).value, U32(s, 9).value, U32(s, 13).value))
    else None
  }

  /** The fields sit at offsets 1, 5, 9 and 13, and byte 0 is the SetView tag. */
  lemma ViewRectLayout(r: ViewRect)
    ensures ViewRectBytes(r)[0] == 0
    ensures U32(ViewRectBytes(r), 1) == Some(ToUint32(r.x))
    ensures U32(ViewRectBytes(r), 5) == Some(ToUint32(r.y))
    ensures U32(ViewRectBytes(r), 9) == Some(ToUint32(r.width))
    ensures U32(ViewRectBytes(r), 13) == Some(ToUint32(r.height))
  {
    var x, y, w, h := LE32(ToUint32(r.x)), LE32(ToUint32(r.y)), LE32(ToUint32(r.width)), LE32(ToUint32(r.height));
    var s := ViewRectBytes(r);
    assert s == [0] + x + (y + w + h);
    U32At([0], ToUint32(r.x), y + w + h);
    assert s == ([0] + x) + y + (w + h);
    U32At([0] + x, ToUint32(r.y), w + h);
    assert s == ([0] + x + y) + w + h;
    U32At([0] + x + y, ToUint32(r.width), h);
    assert s == ([0] + x + y + w) + h + [];
    U32At([0] + x + y + w, ToUint32(r.height), []);
  }

  /** Decoding the encoding recovers every field that fits an unsigned 32-bit integer. */
  lemma ViewRectRoundTrip(r: ViewRect)
    requires 0 <= r.x < U32Limit && 0 <= r.y < U32Limit
    requires 0 <= r.width < U32Limit && 0 <= r.height < U32Limit
    ensures DecodeViewRect(ViewRectBytes(r)) == Some(r)
  {
    ViewRectLayout(r);
  }

  /** `view.setUint32(offset, v, true)` on the message buffer. */
  method SetUint32(buffer: array<byte>, offset: nat, v: int)
    requires offset + 4 <= buffer.Length
    modifies buffer
    ensures buffer[offset..offset + 4] == LE32(ToUint32(v))
    ensures buffer[..offset] == old(buffer[..offset])
    ensures buffer[offset + 4..] == old(buffer[offset + 4..])
  {
    var bytes := LE32(ToUint32(v));
    buffer[offset] := bytes[0];
    buffer[offset + 1] := bytes[1];
    buffer[offset + 2] := bytes[2];
    buffer[offset + 3] := bytes[3];
    assert buffer[offset..offset + 4] == bytes;
  }

  /**
   * `netSendViewRect` up to the hand-over to the socket: fills a fresh buffer through a
   * running offset and returns it.
   */
  method NetSendViewRect(x: int, y: int, width: int, height: int) returns (buffer: array<byte>)
    ensures fresh(buffer) && buffer.Length == ViewRectLength
    ensures buffer[..] == ViewRectBytes(ViewRect(x, y, width, height))
  {
    buffer := new byte[ViewRectLength];
    var offset := 0;
    buffer[offset] := MessageTag(SetView);
    offset := offset + 1;
    SetUint32(buffer, offset, x);
    offset := offset + 4;
    ghost var done := [MessageTag(SetView)] + LE32(ToUint32(x));
    assert buffer[..5] == done;
    SetUint32(buffer, offset, y);
    offset := offset + 4;
    assert buffer[..5] == done[..5];
    done := done + LE32(ToUint32(y));
    assert buffer[..9] == buffer[..5] + buffer[5..9] == done;
    SetUint32(buffer, offset, width);
    offset := offset + 4;
    assert buffer[..9] == done[..9];
    done := done + LE32(ToUint32(width));
    assert buffer[..13] == buffer[..9] + buffer[9..13] == done;
    SetUint32(buffer, offset, height);
    assert buffer[..13] == done[..13];
    done := done + LE32(ToUint32(height));
    assert buffer[..] == buffer[..13] + buffer[13..17] == done;
  }
}
