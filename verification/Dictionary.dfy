// lib/dictionary.c: string pairs in parallel arrays of slots. A stored hash guards the comparison of
// keys; the table doubles when it is full; free slots are found by a search that wraps around.

module Dictionary {

  type CString = seq<bv8>

  /** A pointer to a string, or NULL. */
  datatype Text = Null | Str(chars: CString)

  /** (unsigned) of a signed char. */
  function Widen(c: bv8): bv32
  {
    if c < 128 then c as bv32 else c as bv32 | 0xFFFF_FF00
  }

  function MixChar(hash: bv32, c: bv8): bv32
  {
    var a := hash + Widen(c);
    var b := a + (a << 10);
    b ^ (b >> 6)
  }

  function Avalanche(hash: bv32): bv32
  {
    var a := hash + (hash << 3);
    var b := a ^ (a >> 11);
    b + (b << 15)
  }

  function Mixed(s: CString): bv32
  {
    if |s| == 0 then 0 else MixChar(Mixed(s[..|s| - 1]), s[|s| - 1])
  }

  function HashOf(s: CString): bv32
  {
    Avalanche(Mixed(s))
  }

  /** dictionary_hash(). */
  method Hash(key: Text) returns (hash: bv32)
    ensures hash == match key case Null => 0 case Str(s) => HashOf(s)
  {
    hide MixChar, Avalanche;
    if key == Null {
      return 0;
    }
    var s := key.chars;
    hash := 0;
    var i := 0;
    while i < |s|
      invariant i <= |s| && hash == Mixed(s[..i])
    {
      assert s[..i + 1][..i] == s[..i];
      hash := MixChar(hash, s[i]);
      i := i + 1;
    }
    assert s[..i] == s;
    hash := Avalanche(hash);
  }

  /* ------------------------------------------------------------ counting slots */

  function Occupied(keys: seq<Text>): (c: nat)
    ensures c <= |keys|
  {
    if |keys| == 0 then 0
    else Occupied(keys[..|keys| - 1]) + if keys[|keys| - 1].Null? then 0 else 1
  }

  lemma {:induction false} OccupiedUpdate(keys: seq<Text>, i: nat, k: Text)
    requires i < |keys|
    ensures Occupied(keys[i := k]) ==
      Occupied(keys) + (if k.Null? then 0 else 1) - (if keys[i].Null? then 0 else 1)
  {
    var last := |keys| - 1;
    if i < last {
      OccupiedUpdate(keys[..last], i, k);
      assert keys[i := k][..last] == keys[..last][i := k];
    } else {
      assert keys[i := k][..last] == keys[..last];
    }
  }

  /** New slots are free. */
  lemma {:induction false} OccupiedGrown(keys: seq<Text>, more: nat)
    ensures Occupied(keys + seq(more, i => Null)) == Occupied(keys)
  {
    var grown := keys + seq(more, i => Null);
    if more == 0 {
      assert grown == keys;
    } else {
      OccupiedGrown(keys, more - 1);
      assert grown[..|grown| - 1] == keys + seq(more - 1, i => Null);
    }
  }

  /** A table with fewer keys than slots has a free slot. */
  lemma {:induction false} FreeSlot(keys: seq<Text>) returns (f: nat)
    requires Occupied(keys) < |keys|
    ensures f < |keys| && keys[f].Null?
  {
    f := |keys| - 1;
    if !keys[f].Null? {
      f := FreeSlot(keys[..f]);
    }
  }

  /** A table with no keys has only free slots. */
  lemma {:induction false} NothingStored(keys: seq<Text>, i: nat)
    requires Occupied(keys) == 0 && i < |keys|
    ensures keys[i].Null?
  {
    if i < |keys| - 1 {
      NothingStored(keys[..|keys| - 1], i);
    }
  }

  /* ------------------------------------------------------------ the table as a value */

  /** The three parallel arrays. */
  datatype Slots = Slots(keys: seq<Text>, vals: seq<Text>, hashes: seq<bv32>)

  ghost predicate SlotHolds(s: Slots, contents: map<CString, Text>, i: nat)
    requires i < |s.keys| == |s.vals| == |s.hashes| && s.keys[i].Str?
  {
    && s.keys[i].chars in contents && contents[s.keys[i].chars] == s.vals[i]
    && s.hashes[i] == HashOf(s.keys[i].chars)
  }

  /** The slots hold exactly the contents, under the right hashes, each key once. */
  ghost predicate Holds(s: Slots, contents: map<CString, Text>)
  {
    && |s.keys| == |s.vals| == |s.hashes|
    && (forall i :: 0 <= i < |s.keys| && s.keys[i].Str? ==> SlotHolds(s, contents, i))
    && (forall i, j :: 0 <= i < j < |s.keys| && s.keys[i].Str? ==> s.keys[i] != s.keys[j])
    && (forall k :: k in contents ==> Str(k) in s.keys)
  }

  lemma StoredRight(s: Slots, contents: map<CString, Text>, i: nat)
    requires Holds(s, contents) && i < |s.keys|
    ensures |s.vals| == |s.hashes| == |s.keys| && (s.keys[i].Str? ==> SlotHolds(s, contents, i))
  {
  }

  lemma NotThere(s: Slots, contents: map<CString, Text>, k: CString)
    requires Holds(s, contents) && forall j :: 0 <= j < |s.keys| ==> s.keys[j] != Str(k)
    ensures k !in contents
  {
  }

  function Put(s: Slots, i: nat, k: Text, v: Text, h: bv32): Slots
    requires i < |s.keys| == |s.vals| == |s.hashes|
  {
    Slots(s.keys[i := k], s.vals[i := v], s.hashes[i := h])
  }

  lemma InsertHolds(s: Slots, contents: map<CString, Text>, i: nat, k: CString, v: Text)
    requires Holds(s, contents) && i < |s.keys| && s.keys[i].Null? && k !in contents
    ensures Holds(Put(s, i, Str(k), v, HashOf(k)), contents[k := v])
  {
    hide HashOf;
    var t, c := Put(s, i, Str(k), v, HashOf(k)), contents[k := v];
    forall j | 0 <= j < |t.keys| && t.keys[j].Str? ensures SlotHolds(t, c, j) {
      assert j != i ==> SlotHolds(s, contents, j);
    }
    forall x | x in c ensures Str(x) in t.keys {
      if x == k {
        assert t.keys[i] == Str(k);
      } else {
        var j :| 0 <= j < |s.keys| && s.keys[j] == Str(x);
        assert t.keys[j] == Str(x);
      }
    }
  }

  lemma ReplaceHolds(s: Slots, contents: map<CString, Text>, i: nat, k: CString, v: Text)
    requires Holds(s, contents) && i < |s.keys| && s.keys[i] == Str(k)
    ensures Holds(s.(vals := s.vals[i := v]), contents[k := v])
  {
    hide HashOf;
    var t, c := s.(vals := s.vals[i := v]), contents[k := v];
    forall j | 0 <= j < |t.keys| && t.keys[j].Str? ensures SlotHolds(t, c, j) {
      assert SlotHolds(s, contents, j);
    }
  }

  lemma RemoveHolds(s: Slots, contents: map<CString, Text>, i: nat, k: CString)
    requires Holds(s, contents) && i < |s.keys| && s.keys[i] == Str(k)
    ensures Holds(Put(s, i, Null, Null, 0), contents - {k})
  {
    hide HashOf;
    var t, c := Put(s, i, Null, Null, 0), contents - {k};
    forall j | 0 <= j < |t.keys| && t.keys[j].Str? ensures SlotHolds(t, c, j) {
      assert SlotHolds(s, contents, j);
    }
    forall x | x in c ensures Str(x) in t.keys {
      var j :| 0 <= j < |s.keys| && s.keys[j] == Str(x);
      assert t.keys[j] == Str(x);
    }
  }

  function Grown(s: Slots, more: nat): Slots
  {
    Slots(s.keys + seq(more, i => Null), s.vals + seq(more, i => Null), s.hashes + seq(more, i => 0))
  }

  lemma GrownHolds(s: Slots, contents: map<CString, Text>, more: nat)
    requires Holds(s, contents)
    ensures Holds(Grown(s, more), contents)
  {
    hide HashOf;
    var t := Grown(s, more);
    forall j | 0 <= j < |t.keys| && t.keys[j].Str? ensures SlotHolds(t, contents, j) {
      assert SlotHolds(s, contents, j);
    }
    forall x | x in contents ensures Str(x) in t.keys {
      var j :| 0 <= j < |s.keys| && s.keys[j] == Str(x);
      assert t.keys[j] == Str(x);
    }
  }

  /* ------------------------------------------------------------ the table in memory */

  const DICTMINSZ: nat := 128

  class Dict {
    var n: nat
    var key: array<Text>
    var val: array<Text>
    var hash: array<bv32>
    ghost var contents: map<CString, Text>

    ghost predicate Valid()
      reads this, key, val, hash
    {
      && key.Length > 0 && key != val && (hash as object) != key && (hash as object) != val
      && n == Occupied(key[..])
      && Holds(Table(), contents)
    }

    ghost function Table(): Slots
      reads this, key, val, hash
    {
      Slots(key[..], val[..], hash[..])
    }

    /** dictionary_new(). */
    constructor (size: nat)
      ensures Valid() && contents == map[] && n == 0
      ensures key.Length == if size < DICTMINSZ then DICTMINSZ else size
      ensures fresh(key) && fresh(val) && fresh(hash)
    {
      var slots := if size < DICTMINSZ then DICTMINSZ else size;
      n := 0;
      key := new Text[slots](i => Null);
      val := new Text[slots](i => Null);
      hash := new bv32[slots](i => 0);
      contents := map[];
      new;
      OccupiedGrown([], slots);
      assert key[..] == [] + seq(slots, i => Null);
    }

    /** The loop that looks for a key: compare hashes first, and keys only when they agree. */
    method Find(k: CString, h: bv32) returns (i: nat)
      requires Valid() && h == HashOf(k)
      ensures i <= key.Length
      ensures i < key.Length ==> key[i] == Str(k)
      ensures i < key.Length <==> k in contents
    {
      hide HashOf, Occupied, Holds;
      SameLengths();
      i := 0;
      while i < key.Length
        invariant i <= key.Length
        invariant forall j :: 0 <= j < i ==> key[j] != Str(k)
      {
        StoredRight(Table(), contents, i);
        if key[i] != Null && h == hash[i] && key[i].chars == k {
          return;
        }
        i := i + 1;
      }
      NotThere(Table(), contents, k);
    }

    /** dictionary_get(). */
    method Get(k: Text, def: Text) returns (v: Text)
      requires Valid()
      ensures v == if k.Str? && k.chars in contents then contents[k.chars] else def
    {
      hide HashOf, Occupied;
      if k == Null {
        return def;
      }
      var h := Hash(k);
      var i := Find(k.chars, h);
      assert i < key.Length ==> SlotHolds(Table(), contents, i);
      v := if i < key.Length then val[i] else def;
    }

    /** dictionary_grow(): twice the slots, the same contents. */
    method Grow()
      requires Valid()
      modifies this
      ensures Valid() && contents == old(contents) && n == old(n)
      ensures key.Length == 2 * old(key.Length)
      ensures fresh(key) && fresh(val) && fresh(hash)
    {
      hide Holds, Occupied;
      var size := key.Length;
      var newKey := new Text[2 * size](i => Null);
      var newVal := new Text[2 * size](i => Null);
      var newHash := new bv32[2 * size](i => 0);
      SameLengths();
      forall i | 0 <= i < size {
        newKey[i] := key[i];
      }
      forall i | 0 <= i < size {
        newVal[i] := val[i];
      }
      forall i | 0 <= i < size {
        newHash[i] := hash[i];
      }
      OccupiedGrown(key[..], size);
      GrownHolds(Table(), contents, size);
      assert newKey[..] == Grown(Table(), size).keys;
      assert newVal[..] == Grown(Table(), size).vals;
      assert newHash[..] == Grown(Table(), size).hashes;
      key, val, hash := newKey, newVal, newHash;
    }

    lemma SameLengths()
      requires Valid()
      ensures key.Length == val.Length == hash.Length
    {
    }

    /** The search for a free slot: from n onwards, wrapping around at the end. */
    method FindFree() returns (i: nat)
      requires Valid() && n < key.Length
      ensures i < key.Length && key[i] == Null
    {
      ghost var f := FreeSlot(key[..]);
      hide Holds, Occupied;
      i := n;
      while key[i] != Null
        invariant i < key.Length
        decreases if i <= f then f - i else key.Length - i + f
      {
        i := i + 1;
        if i == key.Length {
          i := 0;
        }
      }
    }

    /** Store a key that is not there yet in a free slot. */
    method Insert(k: CString, v: Text, h: bv32)
      requires Valid() && n < key.Length && k !in contents && h == HashOf(k)
      modifies this, key, val, hash
      ensures Valid() && contents == old(contents)[k := v] && n == old(n) + 1
      ensures key == old(key) && val == old(val) && hash == old(hash)
    {
      hide Holds, Occupied, HashOf;
      SameLengths();
      var i := FindFree();
      OccupiedUpdate(key[..], i, Str(k));
      InsertHolds(Table(), contents, i, k, v);
      ghost var after := Put(Table(), i, Str(k), v, h);
      key[i] := Str(k);
      val[i] := v;
      hash[i] := h;
      n := n + 1;
      contents := contents[k := v];
      assert Table() == after;
    }

    /** dictionary_set(). */
    method Set(k: Text, v: Text) returns (error: int)
      requires Valid()
      modifies this, key, val, hash
      ensures Valid() && (error == 0 <==> k.Str?)
      ensures contents == if k.Str? then old(contents)[k.chars := v] else old(contents)
      ensures (key == old(key) || fresh(key)) && (val == old(val) || fresh(val)) && (hash == old(hash) || fresh(hash))
    {
      hide Holds, Occupied, HashOf;
      if k == Null {
        return -1;
      }
      var h := Hash(k);
      SameLengths();
      if n > 0 {
        var i := Find(k.chars, h);
        if i < key.Length {
          ReplaceHolds(Table(), contents, i, k.chars, v);
          ghost var after := Table().(vals := Table().vals[i := v]);
          val[i] := v;
          contents := contents[k.chars := v];
          assert Table() == after;
          return 0;
        }
      } else {
        EmptyTable();
      }
      if n == key.Length {
        Grow();
      }
      Insert(k.chars, v, h);
      error := 0;
    }

    /** A table that counts no keys has no contents. */
    lemma EmptyTable()
      requires Valid() && n == 0
      ensures contents == map[]
    {
      forall k | k in contents ensures false {
        var i :| 0 <= i < |key[..]| && key[..][i] == Str(k);
        NothingStored(key[..], i);
      }
    }

    /** dictionary_unset(). */
    method Unset(k: Text)
      requires Valid()
      modifies this, key, val, hash
      ensures Valid() && contents == if k.Str? then old(contents) - {k.chars} else old(contents)
      ensures key == old(key) && val == old(val) && hash == old(hash)
    {
      hide Holds, Occupied, HashOf;
      if k == Null {
        return;
      }
      var h := Hash(k);
      SameLengths();
      var i := Find(k.chars, h);
      if i >= key.Length {
        assert contents - {k.chars} == contents;
        return;
      }
      OccupiedUpdate(key[..], i, Null);
      RemoveHolds(Table(), contents, i, k.chars);
      ghost var after := Put(Table(), i, Null, Null, 0);
      key[i] := Null;
      val[i] := Null;
      hash[i] := 0;
      n := n - 1;
      contents := contents - {k.chars};
      assert Table() == after;
    }
  }

  /* ------------------------------------------------------------ whole runs */

  datatype Op = SetKey(key: CString, value: Text) | UnsetKey(key: CString) | GetKey(key: CString, def: Text)

  /** What a call does to the map. */
  function After(m: map<CString, Text>, op: Op): map<CString, Text>
  {
    match op
    case SetKey(k, v) => m[k := v]
    case UnsetKey(k) => m - {k}
    case GetKey(_, _) => m
  }

  /** What a call answers. */
  function Answer(m: map<CString, Text>, op: Op): seq<Text>
  {
    match op
    case GetKey(k, def) => [if k in m then m[k] else def]
    case _ => []
  }

  /** The same calls on a map. */
  function Replay(m: map<CString, Text>, ops: seq<Op>): map<CString, Text>
  {
    if |ops| == 0 then m else After(Replay(m, ops[..|ops| - 1]), ops[|ops| - 1])
  }

  function Answers(m: map<CString, Text>, ops: seq<Op>): seq<Text>
  {
    if |ops| == 0 then []
    else Answers(m, ops[..|ops| - 1]) + Answer(Replay(m, ops[..|ops| - 1]), ops[|ops| - 1])
  }

  /** However the table is used, it answers as the map would. */
  method Run(ops: seq<Op>, size: nat) returns (answers: seq<Text>)
    ensures answers == Answers(map[], ops)
  {
    hide Holds, Occupied;
    var d := new Dict(size);
    answers := [];
    var i := 0;
    while i < |ops|
      invariant i <= |ops| && d.Valid() && d.contents == Replay(map[], ops[..i])
      invariant answers == Answers(map[], ops[..i])
      invariant fresh(d) && fresh(d.key) && fresh(d.val) && fresh(d.hash)
    {
      assert ops[..i + 1][..i] == ops[..i];
      match ops[i] {
        case SetKey(k, v) => var _ := d.Set(Str(k), v);
        case UnsetKey(k) => d.Unset(Str(k));
        case GetKey(k, def) =>
          var v := d.Get(Str(k), def);
          answers := answers + [v];
      }
      i := i + 1;
    }
    assert ops[..i] == ops;
  }

  lemma AnswersNext(m: map<CString, Text>, ops: seq<Op>, op: Op)
    ensures Replay(m, ops + [op]) == After(Replay(m, ops), op)
    ensures Answers(m, ops + [op]) == Answers(m, ops) + Answer(Replay(m, ops), op)
  {
    assert (ops + [op])[..|ops|] == ops;
  }

  /** Setting a key to NULL is not deleting it: the key is found afterwards, and the two can be told apart
      exactly by a default that is not NULL. */
  lemma {:induction false} NullIsAValue(m: map<CString, Text>, ops: seq<Op>, k: CString, def: Text)
    ensures var nulled, deleted := ops + [SetKey(k, Null)] + [GetKey(k, def)], ops + [UnsetKey(k)] + [GetKey(k, def)];
      && Answers(m, nulled) == Answers(m, ops) + [Null] && Answers(m, deleted) == Answers(m, ops) + [def]
      && (Answers(m, nulled) == Answers(m, deleted) <==> def == Null)
  {
    AnswersNext(m, ops, SetKey(k, Null));
    AnswersNext(m, ops, UnsetKey(k));
    AnswersNext(m, ops + [SetKey(k, Null)], GetKey(k, def));
    AnswersNext(m, ops + [UnsetKey(k)], GetKey(k, def));
    var a := Answers(m, ops);
    assert (a + [Null])[|a|] == Null && (a + [def])[|a|] == def;
  }
}
