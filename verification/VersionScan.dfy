// The scan of collectdir (jffsX-utils/jffs2reader.c) in terms of the nodes it visits: entries are
// taken in version order by going round the log, without ever sorting it.
//
// vs[j] is the version of the j-th node of the log, or 0 if it is not an entry of the directory;
// at[j] says that the node directly follows the node before it, with no filler in between. The scan
// position i stands for the place just before node i.

module VersionScan {

  const MAX: nat := 0xFFFF_FFFF

  /** Versions are distinct and lie in 1..2^32-2. */
  ghost predicate Versions(vs: seq<nat>)
  {
    && (forall j :: 0 <= j < |vs| ==> vs[j] < MAX)
    && (forall j, k :: 0 <= j < k < |vs| && vs[j] > 0 ==> vs[j] != vs[k])
  }

  function Top(vs: seq<nat>): (t: nat)
    ensures forall j :: 0 <= j < |vs| ==> vs[j] <= t
    ensures t > 0 ==> t in vs
  {
    if |vs| == 0 then 0
    else
      var t := Top(vs[..|vs| - 1]);
      if vs[|vs| - 1] > t then vs[|vs| - 1] else t
  }

  function Index(vs: seq<nat>, v: nat): (j: nat)
    requires v in vs
    ensures j < |vs| && vs[j] == v
  {
    if vs[|vs| - 1] == v then |vs| - 1 else Index(vs[..|vs| - 1], v)
  }

  /** The nodes with versions 1..v, by increasing version. */
  function Upto(vs: seq<nat>, v: nat): seq<nat>
  {
    if v == 0 then []
    else if v in vs then Upto(vs, v - 1) + [Index(vs, v)]
    else Upto(vs, v - 1)
  }

  /** The variables of the loop. The entries in taken have been put in the directory; mark is the place
      at which a whole pass over the log would be noticed, or -1 if the scan never stops there; the
      pass began at from, and wrapped says whether it has rewound since. */
  datatype Scan = Scan(i: nat, mark: int, vmint: nat, mp: nat, vmaxt: nat, vmax: nat, vcur: nat,
    taken: seq<nat>, from: nat, wrapped: bool)

  function Start(): Scan
  {
    Scan(0, 0, MAX, 0, 0, MAX, 0, [], 0, false)
  }

  predicate Done(s: Scan)
  {
    s.vcur >= s.vmax
  }

  /** Look at node i: note an entry that is still to come, take it if it is the very next one. */
  function Visit(vs: seq<nat>, at: seq<bool>, s: Scan): Scan
    requires s.i < |vs| == |at|
  {
    var v := vs[s.i];
    if v <= s.vcur then s.(i := s.i + 1)
    else
      var vmaxt := if s.vmaxt < v then v else s.vmaxt;
      if v == s.vcur + 1 then
        s.(i := s.i + 1, vmaxt := vmaxt, vmint := MAX, mp := if s.vmint > v then s.i else s.mp, vcur := v,
           taken := s.taken + [s.i], mark := if at[s.i] then s.i else -1, from := s.i + 1, wrapped := false)
      else
        s.(i := s.i + 1, vmaxt := vmaxt, vmint := if s.vmint > v then v else s.vmint,
           mp := if s.vmint > v then s.i else s.mp)
  }

  /** A whole pass since the last entry: take the lowest version that was seen, if any is left. */
  function EndPass(s: Scan): Scan
  {
    var t := s.(vmax := s.vmaxt, vmint := MAX);
    if s.vcur < s.vmaxt && s.vcur < s.vmint then
      t.(taken := s.taken + [s.mp], i := s.mp + 1, mark := s.mp + 1, vcur := s.vmint, from := s.mp + 1,
         wrapped := false)
    else t
  }

  function Move(vs: seq<nat>, at: seq<bool>, s: Scan): Scan
    requires s.i <= |vs| == |at|
  {
    if s.i < |vs| then Visit(vs, at, s) else s.(i := 0, wrapped := true)
  }

  /** One iteration of the loop. */
  function Step(vs: seq<nat>, at: seq<bool>, s: Scan): Scan
    requires s.i <= |vs| == |at|
  {
    var t := Move(vs, at, s);
    if t.mark == t.i then EndPass(t) else t
  }

  /* ------------------------------------------------------------ the invariant */

  ghost predicate Seen(m: nat, s: Scan, k: nat)
  {
    if s.wrapped then s.from <= k < m || k < s.i else s.from <= k < s.i
  }

  /** vmint is the lowest version above vcur that this pass has seen, and mp is where. */
  ghost predicate Lowest(vs: seq<nat>, s: Scan)
  {
    && (forall k :: 0 <= k < |vs| && Seen(|vs|, s, k) && vs[k] > s.vcur ==> s.vmint <= vs[k])
    && (s.vmint != MAX ==> s.mp < |vs| && vs[s.mp] == s.vmint > s.vcur)
  }

  ghost predicate Highest(vs: seq<nat>, s: Scan)
  {
    && s.vcur <= s.vmaxt <= Top(vs)
    && (forall k :: 0 <= k < |vs| && Seen(|vs|, s, k) && vs[k] > s.vcur ==> vs[k] <= s.vmaxt)
    && (s.vmax == MAX || s.vmax == Top(vs))
  }

  /** Where the pass is. */
  ghost predicate Placed(vs: seq<nat>, s: Scan)
  {
    && s.i <= |vs| && s.from <= |vs|
    && (s.mark == s.from || (s.from > 0 && vs[s.from - 1] == s.vcur && (s.mark == s.from - 1 || s.mark == -1)))
    && (!s.wrapped ==> s.from <= s.i)
    && (s.wrapped && s.mark >= 0 ==> s.i < s.mark)
    && (s.wrapped && s.mark < 0 && s.vcur + 1 in vs ==> s.i <= s.from)
  }

  ghost predicate Inv(vs: seq<nat>, at: seq<bool>, s: Scan)
  {
    && Versions(vs) && |at| == |vs|
    && (s.vcur == 0 || s.vcur in vs)
    && s.taken == Upto(vs, s.vcur)
    && (forall k :: 0 <= k < |vs| && Seen(|vs|, s, k) ==> vs[k] != s.vcur + 1)
    && Lowest(vs, s) && Highest(vs, s) && Placed(vs, s)
  }

  lemma {:induction false} StartInv(vs: seq<nat>, at: seq<bool>)
    requires Versions(vs) && |at| == |vs|
    ensures Inv(vs, at, Start())
  {
  }

  lemma {:induction false} UptoSkip(vs: seq<nat>, a: nat, b: nat)
    requires a <= b && forall v :: a < v <= b ==> v !in vs
    ensures Upto(vs, b) == Upto(vs, a)
    decreases b
  {
    if a < b {
      UptoSkip(vs, a, b - 1);
    }
  }

  lemma {:induction false} UniqueIndex(vs: seq<nat>, j: nat)
    requires Versions(vs) && j < |vs| && vs[j] > 0
    ensures Index(vs, vs[j]) == j
  {
    hide Index;
    var k := Index(vs, vs[j]);
  }

  /** Taking node j when its version is the next one. */
  lemma {:induction false} TakeNext(vs: seq<nat>, v: nat, j: nat)
    requires Versions(vs) && j < |vs| && vs[j] > v && forall k :: 0 <= k < |vs| && vs[k] > v ==> vs[j] <= vs[k]
    ensures Upto(vs, vs[j]) == Upto(vs, v) + [j]
  {
    UptoSkip(vs, v, vs[j] - 1);
    UniqueIndex(vs, j);
  }

  /* ------------------------------------------------------------ one iteration keeps it */

  /** No pass will ever be noticed, and there is no very next entry to be found. */
  ghost predicate Trap(vs: seq<nat>, s: Scan)
  {
    s.mark < 0 && s.vcur + 1 !in vs && !Done(s)
  }

  /** All the parts of the invariant that do not depend on the pass being unfinished. */
  ghost predicate Mid(vs: seq<nat>, at: seq<bool>, s: Scan)
  {
    && Versions(vs) && |at| == |vs|
    && (s.vcur == 0 || s.vcur in vs)
    && s.taken == Upto(vs, s.vcur)
    && (forall k :: 0 <= k < |vs| && Seen(|vs|, s, k) ==> vs[k] != s.vcur + 1)
    && Lowest(vs, s) && Highest(vs, s)
    && (s.mark == s.i || Placed(vs, s))
    && (s.mark == s.i ==>
      && s.wrapped && s.from <= |vs|
      && (s.mark == s.from || (s.mark == s.from - 1 && vs[s.mark] == s.vcur)))
  }

  lemma {:induction false} PassBySeen(vs: seq<nat>, at: seq<bool>, s: Scan, k: nat)
    requires s.i < |vs| == |at| && vs[s.i] != s.vcur + 1
    ensures Seen(|vs|, Visit(vs, at, s), k) ==> Seen(|vs|, s, k) || k == s.i
  {
  }

  lemma {:induction false} PassByBounds(vs: seq<nat>, at: seq<bool>, s: Scan)
    requires s.i < |vs| == |at| && vs[s.i] != s.vcur + 1 && Versions(vs) && Lowest(vs, s) && Highest(vs, s)
    ensures Lowest(vs, Visit(vs, at, s)) && Highest(vs, Visit(vs, at, s))
  {
    hide Seen, Top;
    var t := Visit(vs, at, s);
    forall k | 0 <= k < |vs| && Seen(|vs|, t, k) ensures Seen(|vs|, s, k) || k == s.i {
      PassBySeen(vs, at, s, k);
    }
  }

  lemma {:induction false} PassByPlaced(vs: seq<nat>, at: seq<bool>, s: Scan)
    requires Inv(vs, at, s) && !Done(s) && s.i < |vs| && vs[s.i] != s.vcur + 1
    ensures var t := Visit(vs, at, s); if t.mark == t.i then t.wrapped else Placed(vs, t)
  {
    hide Seen, Lowest, Highest, Versions;
    if s.wrapped && s.mark < 0 && s.vcur + 1 in vs {
      NextUnseen(vs, at, s);
    }
  }

  lemma {:induction false} PassBy(vs: seq<nat>, at: seq<bool>, s: Scan)
    requires Inv(vs, at, s) && !Done(s) && s.i < |vs| && vs[s.i] != s.vcur + 1
    ensures Mid(vs, at, Visit(vs, at, s))
  {
    PassByBounds(vs, at, s);
    PassByPlaced(vs, at, s);
    hide Seen, Lowest, Highest, Versions, Upto;
    var t := Visit(vs, at, s);
    forall k | 0 <= k < |vs| && Seen(|vs|, t, k) ensures vs[k] != s.vcur + 1 {
      PassBySeen(vs, at, s, k);
    }
  }

  /** While the very next entry is missing from the pass so far, the pass is not over. */
  lemma {:induction false} NextUnseen(vs: seq<nat>, at: seq<bool>, s: Scan)
    requires Inv(vs, at, s) && s.wrapped && s.mark < 0 && s.vcur + 1 in vs
    ensures s.i < s.from
  {
    var j := Index(vs, s.vcur + 1);
    assert !Seen(|vs|, s, j);
  }

  lemma {:induction false} Take(vs: seq<nat>, at: seq<bool>, s: Scan)
    requires Inv(vs, at, s) && !Done(s) && s.i < |vs| && vs[s.i] == s.vcur + 1
    ensures Inv(vs, at, Visit(vs, at, s))
  {
    TakeNext(vs, s.vcur, s.i);
  }

  lemma {:induction false} Rewind(vs: seq<nat>, at: seq<bool>, s: Scan)
    requires Inv(vs, at, s) && !Done(s) && s.i == |vs|
    ensures Mid(vs, at, s.(i := 0, wrapped := true))
  {
    var t := s.(i := 0, wrapped := true);
    RewindBounds(vs, s);
    if s.wrapped && s.mark < 0 && s.vcur + 1 in vs {
      NextUnseen(vs, at, s);
    }
    assert Placed(vs, t) || t.mark == t.i;
    hide Lowest, Highest, Upto, Versions, Top, Seen;
    forall k | 0 <= k < |vs| && Seen(|vs|, t, k) ensures vs[k] != s.vcur + 1 {
      RewindSeen(vs, s, k);
    }
  }

  lemma {:induction false} RewindSeen(vs: seq<nat>, s: Scan, k: nat)
    requires s.i == |vs| && Placed(vs, s) && k < |vs| && Seen(|vs|, s.(i := 0, wrapped := true), k)
    ensures Seen(|vs|, s, k)
  {
  }

  lemma {:induction false} RewindBounds(vs: seq<nat>, s: Scan)
    requires s.i == |vs| && Placed(vs, s) && Lowest(vs, s) && Highest(vs, s)
    ensures Lowest(vs, s.(i := 0, wrapped := true)) && Highest(vs, s.(i := 0, wrapped := true))
  {
    hide Seen, Top, Placed;
    var t := s.(i := 0, wrapped := true);
    forall k | 0 <= k < |vs| && Seen(|vs|, t, k) ensures Seen(|vs|, s, k) {
      RewindSeen(vs, s, k);
    }
  }

  /** A finished pass has seen everything that is still to come. */
  lemma {:induction false} WholePass(vs: seq<nat>, at: seq<bool>, s: Scan)
    requires Mid(vs, at, s) && s.mark == s.i
    ensures forall k :: 0 <= k < |vs| && vs[k] > s.vcur ==> s.vmint <= vs[k] && vs[k] > s.vcur + 1
    ensures s.vmaxt == Top(vs)
    ensures s.vcur < Top(vs) ==> s.vmint < MAX
  {
    forall k | 0 <= k < |vs| && vs[k] > s.vcur ensures Seen(|vs|, s, k) {
    }
    if s.vcur < Top(vs) {
      var k := Index(vs, Top(vs));
      assert Seen(|vs|, s, k);
    }
  }

  lemma {:induction false} Jump(vs: seq<nat>, at: seq<bool>, s: Scan)
    requires Mid(vs, at, s) && s.mark == s.i && s.vcur < s.vmaxt && s.vcur < s.vmint
    ensures Inv(vs, at, EndPass(s))
  {
    WholePass(vs, at, s);
    TakeNext(vs, s.vcur, s.mp);
    var t := EndPass(s);
    assert t.vcur in vs;
  }

  lemma {:induction false} Stop(vs: seq<nat>, at: seq<bool>, s: Scan)
    requires Mid(vs, at, s) && s.mark == s.i && !(s.vcur < s.vmaxt && s.vcur < s.vmint)
    ensures Done(EndPass(s)) && EndPass(s).vcur == Top(vs) && EndPass(s).taken == Upto(vs, Top(vs))
  {
    WholePass(vs, at, s);
  }

  lemma {:induction false} DoneIsAll(vs: seq<nat>, at: seq<bool>, s: Scan)
    requires Inv(vs, at, s) && Done(s)
    ensures s.vcur == Top(vs) && s.taken == Upto(vs, Top(vs))
  {
    assert s.vcur < MAX;
  }

  /* ------------------------------------------------------------ when it stops */

  ghost predicate NoGap(vs: seq<nat>, v: nat)
  {
    forall u :: v < u <= Top(vs) ==> u in vs
  }

  /** Node j is taken as the very next entry, and what comes after it can only be found by noticing a
      whole pass that began at j: there is a gap after its version, or it is the last of all and no gap
      before it has already told the scan so. */
  ghost predicate NeedsPass(vs: seq<nat>, known: bool, vcur: nat, j: nat)
  {
    && j < |vs| && vs[j] > vcur && (vs[j] == 1 || vs[j] - 1 in vs) && vs[j] + 1 !in vs
    && (vs[j] < Top(vs) || (!known && NoGap(vs, vcur)))
  }

  /** Every node from which a whole pass must be noticed directly follows another node. */
  ghost predicate Collectable(vs: seq<nat>, at: seq<bool>)
    requires |at| == |vs|
  {
    forall j :: 0 <= j < |vs| && NeedsPass(vs, false, 0, j) ==> at[j]
  }

  ghost predicate Good(vs: seq<nat>, at: seq<bool>, s: Scan)
    requires |at| == |vs|
  {
    && (s.mark >= 0 || s.vcur + 1 in vs || Done(s))
    && forall j :: 0 <= j < |vs| && NeedsPass(vs, s.vmax != MAX, s.vcur, j) ==> at[j]
  }

  ghost predicate Halts(vs: seq<nat>, at: seq<bool>, s: Scan, n: nat)
    requires |at| == |vs|
    decreases n
  {
    if Done(s) then n == 0 else n > 0 && s.i <= |vs| && Halts(vs, at, Step(vs, at, s), n - 1)
  }

  ghost predicate Terminates(vs: seq<nat>, at: seq<bool>, s: Scan)
    requires |at| == |vs|
  {
    exists n: nat :: Halts(vs, at, s, n)
  }

  lemma {:induction false} TerminatesStep(vs: seq<nat>, at: seq<bool>, s: Scan)
    requires |at| == |vs| && !Done(s) && s.i <= |vs|
    ensures Terminates(vs, at, s) <==> Terminates(vs, at, Step(vs, at, s))
  {
    var t := Step(vs, at, s);
    if Terminates(vs, at, s) {
      var n: nat :| Halts(vs, at, s, n);
      assert Halts(vs, at, t, n - 1);
    }
    if Terminates(vs, at, t) {
      var n: nat :| Halts(vs, at, t, n);
      assert Halts(vs, at, s, n + 1);
    }
  }

  lemma {:induction false} TrapForever(vs: seq<nat>, at: seq<bool>, s: Scan, n: nat)
    requires |at| == |vs| && s.i <= |vs| && Trap(vs, s)
    ensures !Halts(vs, at, s, n)
    decreases n
  {
    if n > 0 {
      TrapForever(vs, at, Step(vs, at, s), n - 1);
    }
  }

  lemma {:induction false} NeedOthers(vs: seq<nat>, known: bool, i: nat, j: nat)
    requires Versions(vs) && i < |vs| && j < |vs| && i != j && vs[i] > 0
    ensures NeedsPass(vs, known, vs[i], j) <==> NeedsPass(vs, known, vs[i] - 1, j)
  {
    hide Top;
    SameGap(vs, vs[i] - 1);
    hide NoGap;
    assert vs[j] != vs[i];
  }

  lemma {:induction false} NeedOwn(vs: seq<nat>, known: bool, i: nat)
    requires i < |vs| && vs[i] > 0 && (vs[i] == 1 || vs[i] - 1 in vs)
    ensures NeedsPass(vs, known, vs[i] - 1, i) <==> vs[i] + 1 !in vs && !(known && vs[i] == Top(vs))
    ensures !NeedsPass(vs, known, vs[i], i)
  {
    if vs[i] == Top(vs) {
      assert NoGap(vs, vs[i] - 1);
    }
  }

  lemma {:induction false} TakeFacts(vs: seq<nat>, at: seq<bool>, s: Scan)
    requires Inv(vs, at, s) && !Done(s) && s.i < |vs| && vs[s.i] == s.vcur + 1
    ensures |at| == |vs| && Versions(vs) && s.vcur + 1 in vs && (vs[s.i] == 1 || vs[s.i] - 1 in vs)
    ensures Done(Visit(vs, at, s)) <==> s.vmax != MAX && vs[s.i] == Top(vs)
    ensures Visit(vs, at, s).vcur == vs[s.i] && Visit(vs, at, s).vmax == s.vmax
    ensures Visit(vs, at, s).mark == if at[s.i] then s.i else -1
  {
    assert vs[s.i] <= Top(vs) && vs[s.i] < MAX;
    hide Lowest, Seen, Upto;
  }

  lemma {:induction false} GoodTake(vs: seq<nat>, at: seq<bool>, s: Scan)
    requires Inv(vs, at, s) && !Done(s) && s.i < |vs| && vs[s.i] == s.vcur + 1
    ensures Good(vs, at, Visit(vs, at, s)) <==> Good(vs, at, s)
  {
    hide Inv, NeedsPass;
    var i, known := s.i, s.vmax != MAX;
    TakeFacts(vs, at, s);
    var t := Visit(vs, at, s);
    NeedOwn(vs, known, i);
    forall j | 0 <= j < |vs| && j != i ensures NeedsPass(vs, known, t.vcur, j) <==> NeedsPass(vs, known, s.vcur, j) {
      NeedOthers(vs, known, i, j);
    }
  }

  lemma {:induction false} SameGap(vs: seq<nat>, v: nat)
    requires v + 1 in vs
    ensures NoGap(vs, v) <==> NoGap(vs, v + 1)
  {
    if NoGap(vs, v + 1) {
      forall u | v < u <= Top(vs) ensures u in vs {
      }
    }
  }

  lemma {:induction false} GoodJump(vs: seq<nat>, at: seq<bool>, s: Scan)
    requires Mid(vs, at, s) && s.mark == s.i && s.vcur < s.vmaxt && s.vcur < s.vmint
    ensures Good(vs, at, EndPass(s)) <==> Good(vs, at, s)
  {
    WholePass(vs, at, s);
    hide Upto, Lowest, Placed;
    var t, known := EndPass(s), s.vmax != MAX;
    assert s.vcur + 1 !in vs && s.vmint <= Top(vs);
    assert !NoGap(vs, s.vcur);
    forall j | 0 <= j < |vs| ensures NeedsPass(vs, true, t.vcur, j) <==> NeedsPass(vs, known, s.vcur, j) {
    }
  }

  /** How many iterations the current pass can still take. */
  ghost function Dist(m: nat, s: Scan): int
  {
    var end := if s.mark >= 0 then s.mark else s.from;
    if s.wrapped then end - s.i else m - s.i + 1 + end
  }

  /** Nothing is taken, and the pass goes on. */
  lemma {:induction false} GoOn(vs: seq<nat>, at: seq<bool>, s: Scan)
    requires Inv(vs, at, s) && !Done(s) && (s.i < |vs| ==> vs[s.i] != s.vcur + 1)
    ensures var t := Move(vs, at, s);
      && Mid(vs, at, t) && t.vcur == s.vcur && t.mark == s.mark && t.vmax == s.vmax
      && (t.mark != t.i ==> Inv(vs, at, t) && (!Trap(vs, s) ==> 0 <= Dist(|vs|, t) < Dist(|vs|, s)))
  {
    hide Versions, Upto, Seen, Lowest, Highest;
    if s.i < |vs| {
      PassBy(vs, at, s);
    } else {
      if s.wrapped && s.mark < 0 && s.vcur + 1 in vs {
        NextUnseen(vs, at, s);
      }
      Rewind(vs, at, s);
    }
  }

  ghost predicate Closer(vs: seq<nat>, at: seq<bool>, t: Scan, s: Scan)
  {
    Inv(vs, at, t) && (t.vcur > s.vcur || (t.vcur == s.vcur && 0 <= Dist(|vs|, t) < Dist(|vs|, s)))
  }

  ghost predicate Finished(vs: seq<nat>, s: Scan)
  {
    Done(s) && s.vcur == Top(vs) && s.taken == Upto(vs, Top(vs))
  }

  lemma StaysInside(vs: seq<nat>, at: seq<bool>, s: Scan)
    requires Inv(vs, at, s)
    ensures s.i <= |vs| == |at|
  {
  }

  lemma TakeStep(vs: seq<nat>, at: seq<bool>, s: Scan)
    requires s.i < |vs| == |at| && vs[s.i] == s.vcur + 1
    ensures Step(vs, at, s) == Visit(vs, at, s) && Visit(vs, at, s).vcur > s.vcur
  {
  }

  /** Every iteration keeps the invariant and decides nothing about whether the scan ends; outside a
      trap it also brings the end closer. */
  lemma {:induction false} Progress(vs: seq<nat>, at: seq<bool>, s: Scan)
    requires Inv(vs, at, s) && !Done(s)
    ensures s.i <= |vs| && (Inv(vs, at, Step(vs, at, s)) || Finished(vs, Step(vs, at, s)))
    ensures !Trap(vs, s) ==> Closer(vs, at, Step(vs, at, s), s) || Finished(vs, Step(vs, at, s))
    ensures Good(vs, at, Step(vs, at, s)) <==> Good(vs, at, s)
  {
    hide Inv, Good, Mid, Move;
    StaysInside(vs, at, s);
    if s.i < |vs| && vs[s.i] == s.vcur + 1 {
      TakeStep(vs, at, s);
      Take(vs, at, s);
      GoodTake(vs, at, s);
    } else {
      GoOn(vs, at, s);
      var m := Move(vs, at, s);
      SameGood(vs, at, s, m);
      if m.mark == m.i {
        if m.vcur < m.vmaxt && m.vcur < m.vmint {
          Jump(vs, at, m);
          GoodJump(vs, at, m);
        } else {
          Stop(vs, at, m);
          AllGood(vs, at, EndPass(m));
          AllGood(vs, at, m);
        }
      }
    }
  }

  lemma SameGood(vs: seq<nat>, at: seq<bool>, s: Scan, t: Scan)
    requires |at| == |vs| && t.vcur == s.vcur && t.mark == s.mark && t.vmax == s.vmax
    ensures Good(vs, at, t) <==> Good(vs, at, s)
  {
  }

  lemma AllGood(vs: seq<nat>, at: seq<bool>, s: Scan)
    requires |at| == |vs| && (s.mark >= 0 || Done(s)) && s.vcur == Top(vs)
    ensures Good(vs, at, s)
  {
  }

  lemma {:induction false} Decide(vs: seq<nat>, at: seq<bool>, s: Scan)
    requires Inv(vs, at, s)
    ensures Terminates(vs, at, s) <==> Good(vs, at, s)
    decreases Top(vs) - s.vcur, Dist(|vs|, s)
  {
    if Done(s) {
      assert Halts(vs, at, s, 0);
      DoneIsAll(vs, at, s);
      AllGood(vs, at, s);
    } else if Trap(vs, s) {
      forall n: nat ensures !Halts(vs, at, s, n) {
        TrapForever(vs, at, s, n);
      }
    } else {
      var t := Step(vs, at, s);
      Progress(vs, at, s);
      TerminatesStep(vs, at, s);
      if Finished(vs, t) {
        assert Halts(vs, at, t, 0);
        AllGood(vs, at, t);
      } else {
        assert Inv(vs, at, t);
        Decide(vs, at, t);
      }
    }
  }

  /** The scan ends exactly when no directly taken entry that must be found again by a whole pass is
      preceded by filler. */
  lemma {:induction false} StopsIffCollectable(vs: seq<nat>, at: seq<bool>)
    requires Versions(vs) && |at| == |vs|
    ensures Terminates(vs, at, Start()) <==> Collectable(vs, at)
  {
    StartInv(vs, at);
    Decide(vs, at, Start());
  }

  /** When the end of a pass takes an entry, the pass has seen one. */
  lemma {:induction false} JumpIsReal(vs: seq<nat>, at: seq<bool>, s: Scan)
    requires Inv(vs, at, s) && !Done(s)
    ensures s.i <= |vs| == |at|
    ensures var m := Move(vs, at, s); m.mark == m.i && m.vcur < m.vmaxt ==> m.vmint != MAX && m.mp < |vs|
  {
    StaysInside(vs, at, s);
    if s.i < |vs| && vs[s.i] == s.vcur + 1 {
      TakeStep(vs, at, s);
    } else {
      GoOn(vs, at, s);
      var m := Move(vs, at, s);
      if m.mark == m.i {
        WholePass(vs, at, m);
      }
    }
  }
}
