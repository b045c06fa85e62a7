// jffsX-utils/compr_rtime.c: the rtime compressor. A code is a sequence of pairs: a byte to copy
// verbatim, and the length of the run that follows it, which repeats what followed the previous
// occurrence of that byte.

module Rtime {
  import opened Basics

  /** What the decoder knows: the bytes so far, and for every byte value the position after its last
      occurrence as a verbatim byte. */
  datatype State = State(out: seq<Byte>, last: seq<int>)

  ghost predicate Valid(s: State)
  {
    |s.last| == 256 && forall v :: 0 <= v < 256 ==> 0 <= s.last[v] <= |s.out|
  }

  /** Append n bytes, each a copy of the byte |out| - back places before it: a run may overlap itself. */
  ghost function CopyRun(out: seq<Byte>, back: nat, n: nat): (r: seq<Byte>)
    requires back < |out|
    ensures |r| == |out| + n && out <= r
    decreases n
  {
    if n == 0 then out else CopyRun(out + [out[back]], back + 1, n - 1)
  }

  ghost function Expand(s: State, value: Byte, run: Byte): (t: State)
    requires Valid(s)
    ensures Valid(t) && |t.out| == |s.out| + 1 + run
  {
    State(CopyRun(s.out + [value], s.last[value], run), s.last[value := |s.out| + 1])
  }

  ghost function Start(): (s: State)
    ensures Valid(s)
  {
    State([], seq(256, i => 0))
  }

  /** The meaning of a code. */
  ghost function Decoded(code: seq<Byte>): (s: State)
    requires |code| % 2 == 0
    ensures Valid(s)
  {
    if |code| == 0 then Start()
    else Expand(Decoded(code[..|code| - 2]), code[|code| - 2], code[|code| - 1])
  }

  /** A run that ends before it meets itself is a plain copy. */
  lemma {:induction false} CopyApart(out: seq<Byte>, back: nat, n: nat)
    requires back < |out| && back + n <= |out|
    ensures CopyRun(out, back, n) == out + out[back..back + n]
    decreases n
  {
    if n > 1 {
      var next := out + [out[back]];
      CopyApart(next, back + 1, n - 1);
      assert next[back + 1..back + n] == out[back + 1..back + n];
    }
  }

  /** The last byte of a run. */
  lemma {:induction false} CopyLast(out: seq<Byte>, back: nat, n: nat)
    requires back < |out|
    ensures back + n < |CopyRun(out, back, n)|
    ensures CopyRun(out, back, n + 1) == CopyRun(out, back, n) + [CopyRun(out, back, n)[back + n]]
    decreases n
  {
    if n > 0 {
      CopyLast(out + [out[back]], back + 1, n - 1);
    }
  }

  lemma DecodedStep(code: seq<Byte>, value: Byte, run: Byte)
    requires |code| % 2 == 0
    ensures Decoded(code + [value, run]) == Expand(Decoded(code), value, run)
  {
    var c := code + [value, run];
    assert c[..|c| - 2] == code;
  }

  /* ------------------------------------------------------------ the format, pair by pair */

  /** Where the bytes of pair i begin: every pair before it stands for one byte and a run. */
  ghost function PairStart(code: seq<Byte>, i: nat): nat
    requires 2 * i <= |code|
  {
    if i == 0 then 0 else PairStart(code, i - 1) + 1 + code[2 * i - 1]
  }

  /** Pair j is the last one among the first n pairs that has this byte. */
  ghost predicate LastPair(code: seq<Byte>, value: Byte, n: nat, j: nat)
    requires 2 * n <= |code|
  {
    j < n && code[2 * j] == value && forall m :: j < m < n ==> code[2 * m] != value
  }

  /** The n bytes at `at` repeat those at `from`, which may overlap them. */
  ghost predicate Repeats(out: seq<Byte>, at: nat, from: nat, n: nat)
  {
    at + n <= |out| && from + n <= |out| && out[at..at + n] == out[from..from + n]
  }

  /** Pair i stands for its byte and a run that repeats what followed the byte of the last pair with the same
      byte, or the beginning if there is none. */
  ghost predicate Means(code: seq<Byte>, i: nat, out: seq<Byte>)
    requires 2 * i + 1 < |code|
  {
    var p, value, run := PairStart(code, i), code[2 * i], code[2 * i + 1];
    && p + run < |out| && out[p] == value
    && (forall j :: LastPair(code, value, i, j) ==> Repeats(out, p + 1, PairStart(code, j) + 1, run))
    && ((forall j :: !LastPair(code, value, i, j)) ==> Repeats(out, p + 1, 0, run))
  }

  lemma {:induction false} CopyAt(out: seq<Byte>, back: nat, n: nat, k: nat)
    requires back < |out| && k < n
    ensures CopyRun(out, back, n)[|out| + k] == CopyRun(out, back, n)[back + k]
    decreases n
  {
    var next := out + [out[back]];
    if k > 0 {
      CopyAt(next, back + 1, n - 1, k - 1);
    } else {
      assert CopyRun(out, back, n)[|out|] == next[|out|];
    }
  }

  lemma RunRepeats(out: seq<Byte>, back: nat, n: nat)
    requires back < |out|
    ensures Repeats(CopyRun(out, back, n), |out|, back, n)
  {
    var r := CopyRun(out, back, n);
    var a, b := r[|out|..|out| + n], r[back..back + n];
    forall k | 0 <= k < n ensures a[k] == b[k] {
      CopyAt(out, back, n, k);
    }
  }

  lemma {:induction false} PairStarts(code: seq<Byte>, more: seq<Byte>, i: nat)
    requires 2 * i <= |code|
    ensures PairStart(code + more, i) == PairStart(code, i)
  {
    if i > 0 {
      PairStarts(code, more, i - 1);
    }
  }

  /** Where a run after this byte begins to copy, behind n pairs. */
  ghost function Back(code: seq<Byte>, value: Byte, n: nat): nat
    requires 2 * n <= |code|
  {
    if n == 0 then 0 else if code[2 * n - 2] == value then PairStart(code, n - 1) + 1 else Back(code, value, n - 1)
  }

  lemma {:induction false} BackIs(code: seq<Byte>, value: Byte, n: nat, j: nat)
    requires 2 * n <= |code| && LastPair(code, value, n, j)
    ensures Back(code, value, n) == PairStart(code, j) + 1
  {
    hide PairStart;
    if code[2 * n - 2] == value {
      assert code[2 * (n - 1)] == value;
    } else {
      BackIs(code, value, n - 1, j);
    }
  }

  lemma {:induction false} NoBack(code: seq<Byte>, value: Byte, n: nat)
    requires 2 * n <= |code| && forall j :: !LastPair(code, value, n, j)
    ensures Back(code, value, n) == 0
  {
    hide PairStart;
    if n > 0 {
      assert !LastPair(code, value, n, n - 1);
      var m: nat := n - 1;
      forall j ensures !LastPair(code, value, m, j) {
        assert !LastPair(code, value, n, j);
      }
      NoBack(code, value, m);
    }
  }

  /** The bytes that the first n pairs stand for, and the positions after them. */
  lemma {:induction false} StateAt(code: seq<Byte>, n: nat, value: Byte)
    requires 2 * n <= |code|
    ensures var s := Decoded(code[..2 * n]); |s.out| == PairStart(code, n) && s.last[value] == Back(code, value, n)
    decreases n
  {
    if n > 0 {
      var before := code[..2 * n - 2];
      assert code[..2 * n] == before + [code[2 * n - 2], code[2 * n - 1]];
      DecodedStep(before, code[2 * n - 2], code[2 * n - 1]);
      hide Decoded, CopyRun;
      StateAt(code, n - 1, value);
    }
  }

  /** What a code stands for: pair after pair, from the first byte to the last. */
  lemma {:induction false} DecodedMeans(code: seq<Byte>, i: nat)
    requires |code| % 2 == 0 && 2 * i + 1 < |code|
    ensures Means(code, i, Decoded(code).out) && |Decoded(code).out| == PairStart(code, |code| / 2)
    decreases |code|
  {
    hide Means, Decoded, PairStart, Back;
    var n := |code| / 2;
    assert code[..2 * n] == code;
    StateAt(code, n, 0);
    PairMeans(code, i);
    DecodedPrefix(code, i + 1);
    MeansLonger(code, i, Decoded(code[..2 * i + 2]).out, Decoded(code).out);
  }

  lemma ExpandMeans(s: State, value: Byte, run: Byte)
    requires Valid(s)
    ensures var out := Expand(s, value, run).out;
      |s.out| + run < |out| && out[|s.out|] == value && Repeats(out, |s.out| + 1, s.last[value], run)
  {
    hide CopyRun, Repeats;
    RunRepeats(s.out + [value], s.last[value], run);
  }

  lemma PairBytes(code: seq<Byte>, i: nat)
    requires 2 * i + 1 < |code|
    ensures var out, p, run := Decoded(code[..2 * i + 2]).out, PairStart(code, i), code[2 * i + 1];
      p + run < |out| && out[p] == code[2 * i] && Repeats(out, p + 1, Back(code, code[2 * i], i), run)
  {
    hide Decoded, Expand, PairStart, Back, Repeats, Valid;
    var before, value, run := code[..2 * i], code[2 * i], code[2 * i + 1];
    assert code[..2 * i + 2] == before + [value, run];
    DecodedStep(before, value, run);
    StateAt(code, i, value);
    ExpandMeans(Decoded(before), value, run);
  }

  lemma PairMeans(code: seq<Byte>, i: nat)
    requires 2 * i + 1 < |code|
    ensures Means(code, i, Decoded(code[..2 * i + 2]).out)
  {
    hide Decoded, PairStart, Back, Repeats;
    PairBytes(code, i);
    var value := code[2 * i];
    forall j | LastPair(code, value, i, j) ensures Back(code, value, i) == PairStart(code, j) + 1 {
      BackIs(code, value, i, j);
    }
    if forall j :: !LastPair(code, value, i, j) {
      NoBack(code, value, i);
    }
  }

  lemma MeansLonger(code: seq<Byte>, i: nat, out: seq<Byte>, longer: seq<Byte>)
    requires 2 * i + 1 < |code| && Means(code, i, out) && out <= longer
    ensures Means(code, i, longer)
  {
    hide LastPair, PairStart;
    forall at: nat, from: nat, n: nat | Repeats(out, at, from, n) ensures Repeats(longer, at, from, n) {
      assert longer[at..at + n] == out[at..at + n] && longer[from..from + n] == out[from..from + n];
    }
  }

  /** Further pairs only add bytes. */
  lemma {:induction false} DecodedPrefix(code: seq<Byte>, n: nat)
    requires |code| % 2 == 0 && 2 * n <= |code|
    ensures Decoded(code[..2 * n]).out <= Decoded(code).out
    decreases |code|
  {
    if 2 * n == |code| {
      assert code[..2 * n] == code;
    } else {
      var shorter := code[..|code| - 2];
      assert shorter[..2 * n] == code[..2 * n];
      DecodedPrefix(shorter, n);
    }
  }

  /** Storing an int in a short. */
  function Short(x: int): int
  {
    (x + 32768) % 65536 - 32768
  }

  /* ------------------------------------------------------------ the code for given bytes */

  /** How far the bytes at start repeat those at back, given that they do for run bytes; 255 is the limit. */
  function RunFrom(data: seq<Byte>, start: nat, back: nat, run: nat): (r: Byte)
    requires back < start && run <= 255 && start + run <= |data|
    ensures run <= r && start + r <= |data|
    decreases 255 - run
  {
    if start + run < |data| && run < 255 && data[start + run] == data[back + run] then
      RunFrom(data, start, back, run + 1)
    else run
  }

  datatype Code = Code(code: seq<Byte>, consumed: nat)

  /** The positions after the last occurrences are within what has been read. */
  predicate Positions(last: seq<int>, pos: nat)
  {
    |last| == 256 && forall v :: 0 <= v < 256 ==> 0 <= last[v] <= pos
  }

  /** The code that jffs2_rtime_compress() has for the bytes from pos on. */
  function Encoding(data: seq<Byte>, last: seq<int>, pos: nat, room: nat): (r: Code)
    requires Positions(last, pos) && pos <= |data|
    ensures pos <= r.consumed <= |data| && |r.code| <= room && |r.code| % 2 == 0
    decreases |data| - pos
  {
    if pos < |data| && room >= 2 then
      var value := data[pos];
      var run := RunFrom(data, pos + 1, last[value], 0);
      var rest := Encoding(data, last[value := pos + 1], pos + 1 + run, room - 2);
      Code([value, run] + rest.code, rest.consumed)
    else Code([], pos)
  }

  function NoPositions(): (last: seq<int>)
    ensures Positions(last, 0)
  {
    seq(256, i => 0)
  }

  lemma {:induction false} RunCopies(data: seq<Byte>, start: nat, back: nat, run: nat)
    requires back < start && run <= 255 && start + run <= |data|
    requires CopyRun(data[..start], back, run) == data[..start + run]
    ensures var r := RunFrom(data, start, back, run); CopyRun(data[..start], back, r) == data[..start + r]
    decreases 255 - run
  {
    hide CopyRun;
    if start + run < |data| && run < 255 && data[start + run] == data[back + run] {
      CopyLast(data[..start], back, run);
      assert data[..start + run + 1] == data[..start + run] + [data[back + run]];
      RunCopies(data, start, back, run + 1);
    }
  }

  /** A code behind another. */
  function Join(code: seq<Byte>, c: Code): Code
  {
    Code(code + c.code, c.consumed)
  }

  lemma EncodingStep(data: seq<Byte>, last: seq<int>, pos: nat, room: nat, code: seq<Byte>)
    requires Positions(last, pos) && pos < |data| && room >= 2
    ensures var run := RunFrom(data, pos + 1, last[data[pos]], 0);
      Join(code, Encoding(data, last, pos, room)) ==
        Join(code + [data[pos], run], Encoding(data, last[data[pos] := pos + 1], pos + 1 + run, room - 2))
  {
    hide RunFrom;
    var run := RunFrom(data, pos + 1, last[data[pos]], 0);
    var rest := Encoding(data, last[data[pos] := pos + 1], pos + 1 + run, room - 2);
    assert code + [data[pos], run] + rest.code == code + ([data[pos], run] + rest.code);
  }

  lemma EncodingEnds(data: seq<Byte>, last: seq<int>, pos: nat, room: nat, code: seq<Byte>)
    requires Positions(last, pos) && pos <= |data| && (pos == |data| || room < 2)
    ensures Join(code, Encoding(data, last, pos, room)) == Code(code, pos)
  {
  }

  /** The code stands for the bytes that it consumes. */
  lemma {:induction false} EncodingDecodes(data: seq<Byte>, last: seq<int>, pos: nat, room: nat, code: seq<Byte>)
    requires Positions(last, pos) && pos <= |data| && |code| % 2 == 0 && Decoded(code) == State(data[..pos], last)
    ensures var r := Join(code, Encoding(data, last, pos, room));
      |r.code| % 2 == 0 && r.consumed <= |data| && Decoded(r.code).out == data[..r.consumed]
    decreases |data| - pos
  {
    hide Decoded, CopyRun, Encoding, RunFrom, Join;
    if pos < |data| && room >= 2 {
      var value := data[pos];
      NoRun(data[..pos + 1], last[value]);
      RunCopies(data, pos + 1, last[value], 0);
      var run := RunFrom(data, pos + 1, last[value], 0);
      StepDecodes(data, pos, last, code, run);
      EncodingStep(data, last, pos, room, code);
      EncodingDecodes(data, last[value := pos + 1], pos + 1 + run, room - 2, code + [value, run]);
    } else {
      EncodingEnds(data, last, pos, room, code);
    }
  }

  lemma RunStep(data: seq<Byte>, start: nat, back: nat, run: nat)
    requires back < start && run <= 255 && start + run <= |data|
    ensures RunFrom(data, start, back, run) ==
      if start + run < |data| && run < 255 && data[start + run] == data[back + run]
      then RunFrom(data, start, back, run + 1) else run
  {
  }

  lemma StartDecodes(data: seq<Byte>)
    ensures Decoded([]) == State(data[..0], NoPositions())
  {
  }

  /** So the whole code decodes to what it consumes. */
  lemma CodeStands(data: seq<Byte>, room: nat)
    ensures var r := Encoding(data, NoPositions(), 0, room); Decoded(r.code).out == data[..r.consumed]
  {
    hide Decoded, Encoding;
    StartDecodes(data);
    EncodingDecodes(data, NoPositions(), 0, room, []);
    var r := Encoding(data, NoPositions(), 0, room);
    assert Join([], r) == r;
  }

  /* ------------------------------------------------------------ the compressor */

  /** The inner loop: how far the bytes at pos repeat the bytes at back. */
  method RunLength(data: array<Byte>, sourcelen: nat, start: nat, back0: nat) returns (run: Byte)
    requires back0 < start <= sourcelen <= data.Length
    ensures start + run <= sourcelen && run == RunFrom(data[..sourcelen], start, back0, 0)
    ensures data[start..start + run] == data[back0..back0 + run]
    ensures start + run == sourcelen || run == 255 || data[start + run] != data[back0 + run]
  {
    hide RunFrom;
    var pos, back := start, back0;
    run := 0;
    ghost var src := data[..sourcelen];
    RunStep(src, start, back0, 0);
    while back < pos && pos < sourcelen && data[pos] == data[back] && run < 255
      invariant 0 <= run <= 255 && pos == start + run <= sourcelen && back == back0 + run
      invariant data[start..pos] == data[back0..back]
      invariant RunFrom(src, start, back0, run) == RunFrom(src, start, back0, 0)
    {
      RunStep(src, start, back0, run);
      assert data[start..pos + 1] == data[start..pos] + [data[pos]];
      assert data[back0..back + 1] == data[back0..back] + [data[back]];
      pos, back, run := pos + 1, back + 1, run + 1;
    }
    RunStep(src, start, back0, run);
  }

  /** What the encoder writes for one step is what the decoder undoes. */
  lemma {:induction false} StepDecodes(data: seq<Byte>, pos: nat, last: seq<int>, code: seq<Byte>, run: Byte)
    requires |code| % 2 == 0 && pos + 1 + run <= |data| && |last| == 256
    requires Decoded(code) == State(data[..pos], last)
    requires CopyRun(data[..pos + 1], last[data[pos]], run) == data[..pos + 1 + run]
    ensures Decoded(code + [data[pos], run]) == State(data[..pos + 1 + run], last[data[pos] := pos + 1])
  {
    hide CopyRun, Decoded;
    DecodedStep(code, data[pos], run);
    assert data[..pos] + [data[pos]] == data[..pos + 1];
  }

  /** One step of the encoder: a verbatim byte and the run after it. */
  method EncodeStep(data: array<Byte>, out: array<Byte>, positions: array<int>, sourcelen: nat, pos: nat, outpos: nat)
    returns (run: Byte)
    requires pos < sourcelen <= data.Length && outpos + 2 <= out.Length && sourcelen <= 32767
    requires positions.Length == 256 && data != out && positions as object != data && positions as object != out
    requires Positions(positions[..], pos)
    modifies out, positions
    ensures run == RunFrom(data[..sourcelen], pos + 1, old(positions[..])[data[pos]], 0)
    ensures positions[..] == old(positions[..])[data[pos] := pos + 1]
    ensures out[..outpos + 2] == old(out[..outpos]) + [data[pos], run]
    ensures forall i :: outpos + 2 <= i < out.Length ==> out[i] == old(out[i])
  {
    hide RunFrom;
    ghost var last := positions[..];
    var value := data[pos];
    out[outpos] := value;
    var back := positions[value];
    assert back == last[value];
    positions[value] := Short(pos + 1);
    run := RunLength(data, sourcelen, pos + 1, back);
    out[outpos + 1] := run;
  }

  /** The main loop, from whatever positions it starts with. */
  method EncodeAll(data: array<Byte>, out: array<Byte>, positions: array<int>, sourcelen: nat, dstlen: nat)
    returns (pos: nat, outpos: nat)
    requires sourcelen <= data.Length && dstlen <= out.Length && sourcelen <= 32767
    requires positions.Length == 256 && data != out && positions as object != data && positions as object != out
    requires Positions(positions[..], 0)
    modifies out, positions
    ensures pos <= sourcelen && outpos <= dstlen && (pos == sourcelen || dstlen < outpos + 2)
    ensures Code(out[..outpos], pos) == Encoding(data[..sourcelen], old(positions[..]), 0, dstlen)
    ensures forall i :: outpos <= i < out.Length ==> out[i] == old(out[i])
  {
    hide Encoding, RunFrom, Join;
    ghost var src := data[..sourcelen];
    ghost var all := Encoding(src, positions[..], 0, dstlen);
    outpos, pos := 0, 0;
    JoinNothing(out[..0], all);
    while pos < sourcelen && outpos + 2 <= dstlen
      invariant pos <= sourcelen && outpos <= dstlen && Positions(positions[..], pos)
      invariant all == Join(out[..outpos], Encoding(src, positions[..], pos, dstlen - outpos))
      invariant forall i :: outpos <= i < out.Length ==> out[i] == old(out[i])
    {
      EncodingStep(src, positions[..], pos, dstlen - outpos, out[..outpos]);
      var run := EncodeStep(data, out, positions, sourcelen, pos, outpos);
      pos, outpos := pos + 1 + run, outpos + 2;
    }
    EncodingEnds(src, positions[..], pos, dstlen - outpos, out[..outpos]);
  }

  lemma JoinNothing(code: seq<Byte>, c: Code)
    requires code == []
    ensures Join(code, c) == c
  {
  }

  /** jffs2_rtime_compress(): the output is the code for the data, it decodes to the bytes that were
      consumed, and on success is shorter than them. */
  method Compress(data: array<Byte>, out: array<Byte>, sourcelen: nat, dstlen: nat)
    returns (error: int, consumed: nat, produced: nat)
    requires sourcelen <= data.Length && dstlen <= out.Length && data != out
    requires sourcelen <= 32767
    modifies out
    ensures consumed <= sourcelen && produced <= dstlen && produced % 2 == 0
    ensures Code(out[..produced], consumed) == Encoding(data[..sourcelen], NoPositions(), 0, dstlen)
    ensures Decoded(out[..produced]).out == data[..consumed]
    ensures consumed == sourcelen || dstlen < produced + 2
    ensures error == 0 <==> produced < consumed
    ensures forall i :: produced <= i < out.Length ==> out[i] == old(out[i])
  {
    hide Decoded, Encoding;
    var positions: array<int> := new int[256](i => 0);
    assert positions[..] == NoPositions();
    consumed, produced := EncodeAll(data, out, positions, sourcelen, dstlen);
    CodeStands(data[..sourcelen], dstlen);
    assert data[..sourcelen][..consumed] == data[..consumed];
    error := if produced >= consumed then -1 else 0;
  }

  /** Every further pair adds at least one byte. */
  lemma {:induction false} DecodedGrows(code: seq<Byte>, p: nat)
    requires |code| % 2 == 0 && p % 2 == 0 && p <= |code|
    ensures 2 * |Decoded(code[..p]).out| + (|code| - p) <= 2 * |Decoded(code).out|
    decreases |code|
  {
    if p == |code| {
      assert code[..p] == code;
    } else {
      var shorter := code[..|code| - 2];
      assert code == shorter + [code[|code| - 2], code[|code| - 1]];
      DecodedStep(shorter, code[|code| - 2], code[|code| - 1]);
      hide Decoded;
      DecodedGrows(shorter, p);
      assert shorter[..p] == code[..p];
    }
  }

  /** The run of one step of the decoder, by a byte loop when it meets the output, else by memcpy. */
  method CopyBack(out: array<Byte>, outpos: nat, backoffs: nat, repeat: nat)
    requires backoffs < outpos && outpos + repeat <= out.Length
    modifies out
    ensures out[..outpos + repeat] == CopyRun(old(out[..outpos]), backoffs, repeat)
    ensures forall i :: outpos + repeat <= i < out.Length ==> out[i] == old(out[i])
  {
    ghost var start := out[..outpos];
    if backoffs + repeat >= outpos {
      var i := 0;
      assert out[..outpos] == CopyRun(start, backoffs, 0);
      hide CopyRun;
      while i < repeat
        invariant i <= repeat && out[..outpos + i] == CopyRun(start, backoffs, i)
        invariant forall j :: outpos + i <= j < out.Length ==> out[j] == old(out[j])
      {
        CopyLast(start, backoffs, i);
        ghost var done := out[..outpos + i];
        out[outpos + i] := out[backoffs + i];
        assert out[..outpos + i + 1] == done + [done[backoffs + i]];
        i := i + 1;
      }
    } else {
      CopyApart(start, backoffs, repeat);
      forall i | 0 <= i < repeat {
        out[outpos + i] := out[backoffs + i];
      }
      assert out[..outpos + repeat] == start + start[backoffs..backoffs + repeat];
    }
  }

  /** One step of the decoder. */
  method DecodeStep(code: seq<Byte>, out: array<Byte>, positions: array<int>, pos: nat, outpos: nat)
    returns (outnext: nat)
    requires pos + 2 <= |code| && pos % 2 == 0 && outpos + 1 + code[pos + 1] <= out.Length && outpos < 32767
    requires positions.Length == 256 && positions as object != out
    requires Decoded(code[..pos]) == State(out[..outpos], positions[..])
    modifies out, positions
    ensures outnext == outpos + 1 + code[pos + 1]
    ensures Decoded(code[..pos + 2]) == State(out[..outnext], positions[..])
    ensures forall i :: outnext <= i < out.Length ==> out[i] == old(out[i])
  {
    hide Decoded, CopyRun;
    ghost var before := out[..outpos];
    var value := code[pos];
    out[outpos] := value;
    var repeat := code[pos + 1];
    var backoffs := positions[value];
    positions[value] := Short(outpos + 1);
    outnext := outpos + 1 + repeat;
    DecodedStep(code[..pos], value, repeat);
    assert code[..pos + 2] == code[..pos] + [value, repeat];
    assert out[..outpos + 1] == before + [value];
    if repeat != 0 {
      CopyBack(out, outpos + 1, backoffs, repeat);
    } else {
      NoRun(out[..outpos + 1], backoffs);
    }
  }

  lemma NoRun(out: seq<Byte>, back: nat)
    requires back < |out|
    ensures CopyRun(out, back, 0) == out
  {
  }

  /** jffs2_rtime_decompress(): the first n bytes of the code stand for exactly destlen bytes. */
  method Decompress(code: seq<Byte>, out: array<Byte>, destlen: nat, ghost n: nat) returns (consumed: nat)
    requires n <= |code| && n % 2 == 0 && destlen <= out.Length && destlen <= 32767
    requires |Decoded(code[..n]).out| == destlen
    modifies out
    ensures out[..destlen] == Decoded(code[..n]).out && consumed == n
    ensures forall i :: destlen <= i < out.Length ==> out[i] == old(out[i])
  {
    var positions: array<int> := new int[256](i => 0);
    var outpos, pos := 0, 0;
    assert Decoded(code[..pos]) == State(out[..outpos], positions[..]);
    hide Decoded, Valid;
    while outpos < destlen
      invariant pos <= n && pos % 2 == 0 && outpos <= destlen
      invariant Decoded(code[..pos]) == State(out[..outpos], positions[..])
      invariant forall i :: outpos <= i < out.Length ==> out[i] == old(out[i])
      decreases destlen - outpos
    {
      Ahead(code, pos, n);
      outpos := DecodeStep(code, out, positions, pos, outpos);
      pos := pos + 2;
    }
    AllUsed(code, pos, n);
    consumed := pos;
  }

  /** As long as bytes are missing there is another pair, and its bytes still fit. */
  lemma {:induction false} Ahead(code: seq<Byte>, pos: nat, n: nat)
    requires pos <= n <= |code| && pos % 2 == 0 && n % 2 == 0
    requires |Decoded(code[..pos]).out| < |Decoded(code[..n]).out|
    ensures pos + 2 <= n
    ensures |Decoded(code[..pos]).out| + 1 + code[pos + 1] <= |Decoded(code[..n]).out|
  {
    hide Decoded;
    var all := code[..n];
    assert pos < n;
    DecodedStep(code[..pos], code[pos], code[pos + 1]);
    assert all[..pos + 2] == code[..pos] + [code[pos], code[pos + 1]];
    DecodedGrows(all, pos + 2);
  }

  lemma {:induction false} AllUsed(code: seq<Byte>, pos: nat, n: nat)
    requires pos <= n <= |code| && pos % 2 == 0 && n % 2 == 0
    requires |Decoded(code[..pos]).out| == |Decoded(code[..n]).out|
    ensures pos == n
  {
    hide Decoded;
    assert code[..n][..pos] == code[..pos];
    DecodedGrows(code[..n], pos);
  }

  /** Compressing and then decompressing gives back what was consumed, and uses up all of the code. */
  method RoundTrip(data: array<Byte>, out: array<Byte>, back: array<Byte>, sourcelen: nat, dstlen: nat)
    returns (error: int, consumed: nat, produced: nat, used: nat)
    requires sourcelen <= data.Length && sourcelen <= back.Length && dstlen <= out.Length && sourcelen <= 32767
    requires data != out && data != back && out != back
    modifies out, back
    ensures error == 0 ==> produced < consumed <= sourcelen && produced <= dstlen
    ensures error == 0 ==> used == produced && back[..consumed] == data[..consumed]
  {
    hide Decoded;
    error, consumed, produced := Compress(data, out, sourcelen, dstlen);
    used := 0;
    if error == 0 {
      var code := out[..];
      assert code[..produced] == out[..produced];
      used := Decompress(code, back, consumed, produced);
    }
  }
}
