/**
 * Serialisation of the two network messages of the nearby-smelt handler. A buffer is modelled
 * as a sequence of typed tokens, one per `ByteBuf` write or read call; a read that finds no
 * token of the expected kind fails, which is how a truncated or malformed payload shows.
 */
module Wire {
  import opened Wrappers
  import opened Furnaces

  datatype Token = IntTok(i: Int32) | BoolTok(b: bool) | StrTok(s: string)

  /** A decoded message with the number of tokens it took. */
  datatype Decoded<T> = Decoded(msg: T, consumed: nat)

  /** The client's request to smelt the item named by `parameters`. */
  datatype SmeltNearbyMessage = SmeltNearbyMessage(parameters: string)

  /** The tokens `FurnaceMessage.toBytes` writes: x, y, z, then the add flag. */
  function EncodeFurnace(m: FurnaceMessage): (r: seq<Token>)
    ensures |r| == 4 && r[0].IntTok? && r[1].IntTok? && r[2].IntTok? && r[3].BoolTok?
    ensures Pos(r[0].i, r[1].i, r[2].i) == m.pos && r[3].b == m.isAdd
  {
    [IntTok(m.pos.x), IntTok(m.pos.y), IntTok(m.pos.z), BoolTok(m.isAdd)]
  }

  /**
   * What `FurnaceMessage.fromBytes` reads from the front of `ts`, with the number of tokens
   * it consumes. Whatever it accepts is exactly the encoding of what it returns.
   */
  function DecodeFurnace(ts: seq<Token>): (r: Option<Decoded<FurnaceMessage>>)
    ensures r.Some? ==> r.value.consumed == |EncodeFurnace(r.value.msg)|
    ensures r.Some? ==> r.value.consumed <= |ts| && EncodeFurnace(r.value.msg) == ts[..r.value.consumed]
  {
    if |ts| >= 4 && ts[0].IntTok? && ts[1].IntTok? && ts[2].IntTok? && ts[3].BoolTok?
    then Some(Decoded(FurnaceMessage(Pos(ts[0].i, ts[1].i, ts[2].i), ts[3].b), 4))
    else None
  }

  /** The tokens `SmeltNearbyMessage.toBytes` writes: the parameter string. */
  function EncodeSmelt(m: SmeltNearbyMessage): (r: seq<Token>)
    ensures |r| == 1 && r[0].StrTok? && r[0].s == m.parameters
  {
    [StrTok(m.parameters)]
  }

  /** What `SmeltNearbyMessage.fromBytes` reads; it accepts exactly an encoding. */
  function DecodeSmelt(ts: seq<Token>): (r: Option<Decoded<SmeltNearbyMessage>>)
    ensures r.Some? ==> r.value.consumed == |EncodeSmelt(r.value.msg)|
    ensures r.Some? ==> r.value.consumed <= |ts| && EncodeSmelt(r.value.msg) == ts[..r.value.consumed]
  {
    if |ts| >= 1 && ts[0].StrTok? then Some(Decoded(SmeltNearbyMessage(ts[0].s), 1)) else None
  }

  /** Decoding an encoded furnace message, whatever follows it, returns the same message. */
  lemma FurnaceRoundTrip(m: FurnaceMessage, rest: seq<Token>)
    ensures DecodeFurnace(EncodeFurnace(m) + rest) == Some(Decoded(m, |EncodeFurnace(m)|))
  {
  }

  /** Decoding fails exactly when the input does not start with the encoding of some message. */
  lemma DecodeFurnaceComplete(ts: seq<Token>)
    ensures DecodeFurnace(ts).None? <==> forall m: FurnaceMessage :: !(EncodeFurnace(m) <= ts)
  {
    if DecodeFurnace(ts).Some? {
      var m := DecodeFurnace(ts).value.msg;
      assert EncodeFurnace(m) <= ts;
    }
  }

  /** Every strict prefix of an encoded furnace message is rejected. */
  lemma TruncatedFurnaceFails(m: FurnaceMessage, k: nat)
    requires k < |EncodeFurnace(m)|
    ensures DecodeFurnace(EncodeFurnace(m)[..k]).None?
  {
  }

  lemma SmeltRoundTrip(m: SmeltNearbyMessage, rest: seq<Token>)
    ensures DecodeSmelt(EncodeSmelt(m) + rest) == Some(Decoded(m, |EncodeSmelt(m)|))
  {
  }

  /** A netty byte buffer: written at the end, read from `readerIndex`. */
  class ByteBuf {
    var data: seq<Token>
    var readerIndex: nat

    ghost predicate Valid()
      reads this
    {
      readerIndex <= |data|
    }

    /** The tokens not yet read. */
    ghost function Readable(): seq<Token>
      reads this
      requires Valid()
    {
      data[readerIndex..]
    }

    constructor ()
      ensures Valid() && data == [] && readerIndex == 0
    {
      data, readerIndex := [], 0;
    }

    method Write(t: Token)
      requires Valid()
      modifies this
      ensures Valid() && data == old(data) + [t] && readerIndex == old(readerIndex)
    {
      data := data + [t];
    }

    /** Read the next token; fail, leaving the buffer as it is, when none is left. */
    method Read() returns (t: Option<Token>)
      requires Valid()
      modifies this
      ensures Valid() && data == old(data)
      ensures t.Some? <==> old(readerIndex) < |data|
      ensures t.Some? ==> t.value == data[old(readerIndex)] && readerIndex == old(readerIndex) + 1
      ensures t.None? ==> readerIndex == old(readerIndex)
    {
      if readerIndex < |data| {
        t := Some(data[readerIndex]);
        readerIndex := readerIndex + 1;
      } else {
        t := None;
      }
    }
  }

  method FurnaceToBytes(m: FurnaceMessage, buf: ByteBuf)
    requires buf.Valid()
    modifies buf
    ensures buf.Valid() && buf.data == old(buf.data) + EncodeFurnace(m)
    ensures buf.readerIndex == old(buf.readerIndex)
  {
    buf.Write(IntTok(m.pos.x));
    buf.Write(IntTok(m.pos.y));
    buf.Write(IntTok(m.pos.z));
    buf.Write(BoolTok(m.isAdd));
  }

  /**
   * Read three ints and a boolean in turn. On success the message is the one the decoder
   * gives and exactly its tokens are consumed; any failed read fails the whole message.
   */
  method FurnaceFromBytes(buf: ByteBuf) returns (r: Option<FurnaceMessage>)
    requires buf.Valid()
    modifies buf
    ensures buf.Valid() && buf.data == old(buf.data)
    ensures old(buf.readerIndex) <= buf.readerIndex
    ensures match DecodeFurnace(old(buf.Readable()))
              case None => r.None?
              case Some(Decoded(m, n)) => r == Some(m) && buf.readerIndex == old(buf.readerIndex) + n
  {
    ghost var ts := buf.Readable();
    r := None;
    var x := buf.Read();
    if x.None? || !x.value.IntTok? { return; }
    var y := buf.Read();
    if y.None? || !y.value.IntTok? { return; }
    var z := buf.Read();
    if z.None? || !z.value.IntTok? { return; }
    var isAdd := buf.Read();
    if isAdd.None? || !isAdd.value.BoolTok? { return; }
    r := Some(FurnaceMessage(Pos(x.value.i, y.value.i, z.value.i), isAdd.value.b));
  }

  method SmeltToBytes(m: SmeltNearbyMessage, buf: ByteBuf)
    requires buf.Valid()
    modifies buf
    ensures buf.Valid() && buf.data == old(buf.data) + EncodeSmelt(m)
    ensures buf.readerIndex == old(buf.readerIndex)
  {
    buf.Write(StrTok(m.parameters));
  }

  method SmeltFromBytes(buf: ByteBuf) returns (r: Option<SmeltNearbyMessage>)
    requires buf.Valid()
    modifies buf
    ensures buf.Valid() && buf.data == old(buf.data)
    ensures old(buf.readerIndex) <= buf.readerIndex
    ensures match DecodeSmelt(old(buf.Readable()))
              case None => r.None?
              case Some(Decoded(m, n)) => r == Some(m) && buf.readerIndex == old(buf.readerIndex) + n
  {
    r := None;
    var s := buf.Read();
    if s.None? || !s.value.StrTok? { return; }
    r := Some(SmeltNearbyMessage(s.value.s));
  }
}
