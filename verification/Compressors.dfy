// jffsX-utils/compr.c: the list of compressors and the choice among them.

module Compressors {
  import opened Basics
  import Rtime

  /** What a compressor returns: failure, or how much it consumed and the code for it. */
  datatype Compressed = Failed | Shrunk(consumed: nat, code: seq<Byte>)

  datatype Compressor = Compressor(name: string, id: nat, priority: int, disabled: bool,
    compress: (seq<Byte>, nat) -> Compressed, decompress: (seq<Byte>, nat) -> seq<Byte>)

  const NONE: nat := 0
  const RTIME: nat := 2
  const LZO: nat := 7

  /** What a compressor owes: it consumes something, keeps to the room it has, and can be undone. */
  ghost predicate Sound(c: Compressor, page: nat)
  {
    c.id != NONE && forall data, room :: |data| <= page ==> SoundResult(c, data, c.compress(data, room), room)
  }

  ghost predicate SoundResult(c: Compressor, data: seq<Byte>, r: Compressed, room: nat)
  {
    r.Shrunk? ==>
      && 0 < r.consumed <= |data| && 0 < |r.code| <= room
      && c.decompress(r.code, r.consumed) == data[..r.consumed]
  }

  /** The rtime compressor as a value: its code for the data if that is shorter, see Rtime.Compress. Its
      positions are shorts, so it is only defined for data up to 32767 bytes. */
  function RtimeCompress(data: seq<Byte>, room: nat): Compressed
  {
    if |data| > 32767 then Failed
    else
      var r := Rtime.Encoding(data, Rtime.NoPositions(), 0, room);
      if |r.code| >= r.consumed then Failed else Shrunk(r.consumed, r.code)
  }

  /** What Rtime.Decompress gives for a code that is used up. */
  ghost function RtimeDecompress(code: seq<Byte>, n: nat): seq<Byte>
  {
    if |code| % 2 == 0 && |Rtime.Decoded(code).out| == n then Rtime.Decoded(code).out else []
  }

  /** jffs2_rtime_comp, with the priority that it is registered with. */
  ghost function RtimeCompressor(priority: int, disabled: bool): Compressor
  {
    Compressor("rtime", RTIME, priority, disabled, RtimeCompress, RtimeDecompress)
  }

  /** jffs2_rtime_compress() in place does what the value says, failure and success alike. */
  method RtimeInPlace(data: array<Byte>, out: array<Byte>, sourcelen: nat, dstlen: nat)
    returns (error: int, consumed: nat, produced: nat)
    requires sourcelen <= data.Length && dstlen <= out.Length && data != out
    requires sourcelen <= 32767
    modifies out
    ensures consumed <= sourcelen && produced <= dstlen
    ensures RtimeCompress(data[..sourcelen], dstlen) ==
      if error == 0 then Shrunk(consumed, out[..produced]) else Failed
  {
    error, consumed, produced := Rtime.Compress(data, out, sourcelen, dstlen);
  }

  /** rtime succeeds exactly when the pairs it can write stand for more bytes than they are. */
  lemma RtimeShrinksIff(data: seq<Byte>, room: nat)
    requires |data| <= 32767
    ensures var r := Rtime.Encoding(data, Rtime.NoPositions(), 0, room);
      RtimeCompress(data, room) == if |r.code| < |Rtime.Decoded(r.code).out| then Shrunk(r.consumed, r.code) else Failed
  {
    hide Rtime.Encoding, Rtime.Decoded;
    Rtime.CodeStands(data, room);
  }

  lemma RtimeIsSound(priority: int, disabled: bool, page: nat)
    requires page <= 32767
    ensures Sound(RtimeCompressor(priority, disabled), page)
  {
    var c := RtimeCompressor(priority, disabled);
    forall data: seq<Byte>, room: nat | |data| <= page ensures SoundResult(c, data, c.compress(data, room), room) {
      var r := Rtime.Encoding(data, Rtime.NoPositions(), 0, room);
      Rtime.CodeStands(data, room);
      assert c.compress(data, room) == RtimeCompress(data, room);
      assert c.decompress(r.code, r.consumed) == RtimeDecompress(r.code, r.consumed);
      assert r.code == [] ==> Rtime.Decoded(r.code).out == [];
    }
  }

  datatype Mode = ModeNone | ModePriority | ModeSize | ModeFavourLzo

  /** jffs2_is_best_compression(). */
  predicate IsBest(mode: Mode, this_: Compressor, best: Compressor, size: nat, bestsize: nat)
  {
    match mode
    case ModeSize => bestsize > size
    case ModeFavourLzo =>
      || (this_.id == LZO && bestsize > size)
      || (best.id != LZO && bestsize > size)
      || (this_.id == LZO && bestsize > size * 80 / 100)
      || bestsize * 80 / 100 > size
    case _ => false
  }

  ghost predicate OneLzo(list: seq<Compressor>)
  {
    forall i, j :: 0 <= i < j < |list| ==> list[i].id != LZO || list[j].id != LZO
  }

  /** The length of the code that a compressor gives. */
  ghost function CodeLength(c: Compressor, data: seq<Byte>, room: nat): nat
  {
    match c.compress(data, room) case Failed => 0 case Shrunk(_, code) => |code|
  }

  /** Why compressor w is chosen among the first n: by size, no code is shorter. When LZO is favoured, its
      code is chosen although others may have down to 80% of its length, and another one is chosen only if
      no code is shorter and it has at most 80% of the length of that of LZO. */
  ghost predicate Preferred(mode: Mode, list: seq<Compressor>, data: seq<Byte>, room: nat, w: nat, n: nat)
    requires w < |list| && n <= |list|
  {
    var best := CodeLength(list[w], data, room);
    forall j :: 0 <= j < n && j != w && Shrinks(list[j], data, room) ==>
      var other := CodeLength(list[j], data, room);
      && (mode == ModeSize ==> best <= other)
      && (mode == ModeFavourLzo && OneLzo(list) ==>
        if list[w].id == LZO then best * 80 / 100 <= other
        else best <= if list[j].id == LZO then other * 80 / 100 else other)
  }

  ghost predicate Descending(list: seq<Compressor>)
  {
    forall i, j :: 0 <= i < j < |list| ==> list[i].priority >= list[j].priority
  }

  /** The place for a new compressor: before the first one of lower priority. */
  ghost predicate IsPlace(list: seq<Compressor>, priority: int, k: nat)
  {
    && k <= |list|
    && (forall i :: 0 <= i < k ==> list[i].priority >= priority)
    && (k < |list| ==> list[k].priority < priority)
  }

  class Registry {
    var list: seq<Compressor>
    var mode: Mode

    constructor ()
      ensures list == [] && mode == ModePriority
    {
      list, mode := [], ModePriority;
    }

    /** jffs2_register_compressor(): the list stays sorted, and a newcomer goes behind its equals. */
    method Register(comp: Compressor) returns (ghost k: nat)
      requires Descending(list)
      modifies this`list
      ensures IsPlace(old(list), comp.priority, k) && list == old(list)[..k] + [comp] + old(list)[k..]
      ensures Descending(list)
    {
      var i := 0;
      while i < |list| && !(list[i].priority < comp.priority)
        invariant i <= |list| && list == old(list)
        invariant forall j :: 0 <= j < i ==> list[j].priority >= comp.priority
      {
        i := i + 1;
      }
      k := i;
      list := list[..i] + [comp] + list[i..];
    }

    /** jffs2_set_compressor_priority(): take the compressor out and put it in again. */
    method SetPriority(name: string, priority: int) returns (error: int, ghost at: nat, ghost k: nat)
      requires Descending(list)
      modifies this`list
      ensures Descending(list) && at <= |old(list)|
      ensures forall j :: 0 <= j < at ==> old(list)[j].name != name
      ensures error == 0 <==> at < |old(list)|
      ensures at == |old(list)| ==> list == old(list)
      ensures at < |old(list)| ==> old(list)[at].name == name
      ensures at < |old(list)| ==>
        var rest, comp := old(list)[..at] + old(list)[at + 1..], old(list)[at].(priority := priority);
        IsPlace(rest, priority, k) && list == rest[..k] + [comp] + rest[k..]
    {
      var i := 0;
      while i < |list| && list[i].name != name
        invariant i <= |list| && list == old(list)
        invariant forall j :: 0 <= j < i ==> list[j].name != name
      {
        i := i + 1;
      }
      at, k := i, 0;
      if i == |list| {
        return 1, at, k;
      }
      var comp := list[i].(priority := priority);
      list := list[..i] + list[i + 1..];
      k := Register(comp);
      error := 0;
    }

    /** Compress with the first compressor that succeeds. */
    method CompressByPriority(data: seq<Byte>, room: nat)
      returns (ret: nat, code: seq<Byte>, datalen: nat, cdatalen: nat)
      ensures var w := FirstWorking(list, data, room);
        if w < |list| then Made(list[w], data, room, ret, code, datalen, cdatalen)
        else ret == NONE && datalen == |data| && cdatalen == room
    {
      datalen, cdatalen, ret, code := |data|, room, NONE, [];
      var i := 0;
      while i < |list|
        invariant i <= |list| && FirstWorking(list, data, room) == i + FirstWorking(list[i..], data, room)
        invariant ret == NONE && datalen == |data| && cdatalen == room
      {
        assert list[i..][1..] == list[i + 1..];
        if !list[i].disabled {
          match list[i].compress(data, room) {
            case Failed =>
            case Shrunk(consumed, out) => return list[i].id, out, consumed, |out|;
          }
        }
        i := i + 1;
      }
    }

    /** Try all compressors, and keep the best result that is shorter than what it stands for. */
    method CompressBest(data: seq<Byte>, room: nat)
      returns (ret: nat, code: seq<Byte>, datalen: nat, cdatalen: nat)
      requires room > 0 && forall i :: 0 <= i < |list| ==> Sound(list[i], |data|)
      requires mode == ModeSize || mode == ModeFavourLzo
      ensures 0 < cdatalen <= room
      ensures ret != NONE ==>
        && cdatalen < datalen
        && exists i :: 0 <= i < |list| && BestChoice(mode, list, i, data, room, ret, code, datalen, cdatalen)
      ensures ret == NONE ==> forall j :: 0 <= j < |list| ==> !Shrinks(list[j], data, room)
      ensures ret == NONE ==> LeftBy(list, data, room, |list|, cdatalen)
    {
      hide LeftBy, Left;
      datalen, cdatalen, ret, code := |data|, room, NONE, [];
      LeftAtFirst(list, data, room);
      var bestSlen: nat, bestDlen: nat, best := 0, 0, -1;
      var i := 0;
      while i < |list|
        invariant i <= |list| && 0 < cdatalen <= room && LeftBy(list, data, room, i, cdatalen)
        invariant if bestDlen == 0 then best == -1 else
          0 <= best < i && Made(list[best], data, room, list[best].id, code, bestSlen, bestDlen) && bestDlen < bestSlen
        invariant bestDlen == 0 ==> forall j :: 0 <= j < i ==> !Shrinks(list[j], data, room)
        invariant bestDlen != 0 ==> Preferred(mode, list, data, room, best, i)
      {
        ghost var held := best;
        LeftNext(list, data, room, i, cdatalen);
        LeftIs(list[i], data, room);
        if !list[i].disabled {
          datalen, cdatalen := |data|, room;
          assert SoundResult(list[i], data, list[i].compress(data, room), room);
          match list[i].compress(data, room) {
            case Failed =>
            case Shrunk(consumed, out) =>
              datalen, cdatalen := consumed, |out|;
              if (bestDlen == 0 || IsBest(mode, list[i], list[best], cdatalen, bestDlen)) && cdatalen < datalen {
                bestDlen, bestSlen, best, code := cdatalen, datalen, i, out;
              }
          }
        }
        if held >= 0 {
          StaysPreferred(mode, list, data, room, held, i);
        }
        i := i + 1;
      }
      if bestDlen != 0 {
        assert Sound(list[best], |data|);
        assert SoundResult(list[best], data, list[best].compress(data, room), room);
        cdatalen, datalen, ret := bestDlen, bestSlen, list[best].id;
        assert BestChoice(mode, list, best, data, room, ret, code, datalen, cdatalen);
      }
    }

    /** jffs2_compress(): the data is either stored as it is, as much of it as the chosen length says, or
        replaced by a code from which that much of it can be had back. */
    method Compress(data: seq<Byte>, room: nat)
      returns (ret: nat, code: seq<Byte>, datalen: nat, cdatalen: nat)
      requires room > 0 && forall i :: 0 <= i < |list| ==> Sound(list[i], |data|)
      ensures 0 < cdatalen <= room && (ret == NONE ==> datalen == cdatalen)
      ensures ret != NONE ==>
        && 0 < datalen <= |data| && |code| == cdatalen
        && exists i :: 0 <= i < |list| && Recovers(list[i], data, room, ret, code, datalen, cdatalen)
      ensures mode == ModeNone ==> ret == NONE && cdatalen == room
      ensures mode == ModePriority ==>
        var w := FirstWorking(list, data, room);
        if w < |list| then Made(list[w], data, room, ret, code, datalen, cdatalen) else ret == NONE && cdatalen == room
      ensures (mode == ModeSize || mode == ModeFavourLzo) && ret == NONE ==>
        && LeftBy(list, data, room, |list|, cdatalen)
        && forall j :: 0 <= j < |list| ==> !Shrinks(list[j], data, room)
      ensures (mode == ModeSize || mode == ModeFavourLzo) && ret != NONE ==>
        && cdatalen < datalen
        && exists i :: 0 <= i < |list| && BestChoice(mode, list, i, data, room, ret, code, datalen, cdatalen)
    {
      hide LeftBy, Preferred;
      datalen, cdatalen, ret, code := |data|, room, NONE, [];
      match mode {
        case ModeNone =>
        case ModePriority => ret, code, datalen, cdatalen := CompressByPriority(data, room);
        case ModeSize => ret, code, datalen, cdatalen := CompressBest(data, room);
        case ModeFavourLzo => ret, code, datalen, cdatalen := CompressBest(data, room);
      }
      if i :| 0 <= i < |list| && Made(list[i], data, room, ret, code, datalen, cdatalen) {
        assert Sound(list[i], |data|);
        assert SoundResult(list[i], data, list[i].compress(data, room), room);
        assert Recovers(list[i], data, room, ret, code, datalen, cdatalen);
      }
      if ret == NONE {
        datalen := cdatalen;
      }
    }
  }

  /** The choice between what was best so far and the next compressor keeps the preference. */
  lemma StaysPreferred(mode: Mode, list: seq<Compressor>, data: seq<Byte>, room: nat, best: nat, i: nat)
    requires best < i < |list| && Shrinks(list[best], data, room) && Preferred(mode, list, data, room, best, i)
    requires mode == ModeSize || mode == ModeFavourLzo
    ensures var size, bestsize := CodeLength(list[i], data, room), CodeLength(list[best], data, room);
      if Shrinks(list[i], data, room) && IsBest(mode, list[i], list[best], size, bestsize)
      then Preferred(mode, list, data, room, i, i + 1) else Preferred(mode, list, data, room, best, i + 1)
  {
  }

  /** The result is what this compressor gave. */
  ghost predicate Made(c: Compressor, data: seq<Byte>, room: nat, ret: nat, code: seq<Byte>, datalen: nat,
    cdatalen: nat)
  {
    !c.disabled && c.compress(data, room) == Shrunk(datalen, code) && ret == c.id && cdatalen == |code|
  }

  /** The result is that of compressor i, which is preferred to all others. */
  ghost predicate BestChoice(mode: Mode, list: seq<Compressor>, i: nat, data: seq<Byte>, room: nat, ret: nat,
    code: seq<Byte>, datalen: nat, cdatalen: nat)
    requires i < |list|
  {
    Made(list[i], data, room, ret, code, datalen, cdatalen) && Preferred(mode, list, data, room, i, |list|)
  }

  /** The length that a compressor leaves. */
  ghost function Left(c: Compressor, data: seq<Byte>, room: nat): nat
  {
    match c.compress(data, room) case Failed => room case Shrunk(_, code) => |code|
  }

  lemma LeftIs(c: Compressor, data: seq<Byte>, room: nat)
    ensures var r := c.compress(data, room); Left(c, data, room) == if r.Shrunk? then |r.code| else room
  {
  }

  lemma LeftAtFirst(list: seq<Compressor>, data: seq<Byte>, room: nat)
    ensures LeftBy(list, data, room, 0, room)
  {
  }

  lemma LeftNext(list: seq<Compressor>, data: seq<Byte>, room: nat, n: nat, len: nat)
    requires n < |list| && LeftBy(list, data, room, n, len)
    ensures LeftBy(list, data, room, n + 1, if list[n].disabled then len else Left(list[n], data, room))
  {
    hide Left, Idle;
    var next := if list[n].disabled then len else Left(list[n], data, room);
    IdleNext(list, 0, n);
    forall i | 0 <= i < n + 1 && !list[i].disabled && Idle(list, i + 1, n + 1)
      ensures next == Left(list[i], data, room)
    {
      IdleNext(list, i + 1, n);
    }
  }

  /** The compressors from a up to n are disabled. */
  ghost predicate Idle(list: seq<Compressor>, a: nat, n: nat)
    requires n <= |list|
  {
    forall j :: a <= j < n ==> list[j].disabled
  }

  lemma IdleNext(list: seq<Compressor>, a: nat, n: nat)
    requires n < |list|
    ensures Idle(list, a, n + 1) <==> Idle(list, a, n) && (a <= n ==> list[n].disabled)
  {
  }

  /** The length that is left when the first n compressors have been tried: that of the code of the last
      enabled one, or all of the room if that one failed or there is none. */
  ghost predicate LeftBy(list: seq<Compressor>, data: seq<Byte>, room: nat, n: nat, len: nat)
    requires n <= |list|
  {
    && (Idle(list, 0, n) ==> len == room)
    && (forall i :: 0 <= i < n && !list[i].disabled && Idle(list, i + 1, n) ==> len == Left(list[i], data, room))
  }

  /** And it can undo it. */
  ghost predicate Recovers(c: Compressor, data: seq<Byte>, room: nat, ret: nat, code: seq<Byte>, datalen: nat,
    cdatalen: nat)
  {
    && Made(c, data, room, ret, code, datalen, cdatalen)
    && datalen <= |data| && c.decompress(code, datalen) == data[..datalen]
  }

  /** The first enabled compressor that succeeds. */
  ghost function FirstWorking(list: seq<Compressor>, data: seq<Byte>, room: nat): (i: nat)
    ensures i <= |list|
    ensures forall j :: 0 <= j < i ==> list[j].disabled || list[j].compress(data, room).Failed?
    ensures i < |list| ==> !list[i].disabled && list[i].compress(data, room).Shrunk?
  {
    if |list| == 0 then 0
    else if !list[0].disabled && list[0].compress(data, room).Shrunk? then 0
    else 1 + FirstWorking(list[1..], data, room)
  }

  ghost predicate Shrinks(c: Compressor, data: seq<Byte>, room: nat)
  {
    var r := c.compress(data, room);
    !c.disabled && r.Shrunk? && |r.code| < r.consumed
  }
}
