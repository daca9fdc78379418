/** Which entries a lookup can miss although they never leave the list (pkg/serviced/discovery.go). */
module DiscoverMisses {
  import opened AddressList
  import opened DiscoverScan

  /** The run ends a scan that has not read `a`, and `a` is in the list all the time. */
  ghost predicate MissedIn(s: State, run: seq<Label>, a: Address)
    requires WellFormed(s)
  {
    && ValidRun(s, run) && PresentDuring(s, run, a)
    && var r := Exec(s, run).reader; r.Scanning? && r.pos == r.s.len && a !in r.got
  }

  ghost predicate CanMiss(s: State, a: Address)
    requires WellFormed(s)
  {
    exists run :: MissedIn(s, run, a)
  }

  // ----- the first entry -----

  /** Entry `a` is the first of the list and of the array being scanned, and no other listed entry has its key. */
  predicate IsFirst(s: State, a: Address)
    requires WellFormed(s)
  {
    && s.reader.Scanning? && s.reader.s.len > 0 && s.heap[s.reader.s.arr][0] == a
    && s.cur.len > 0 && List(s)[0] == a && (forall j | 0 < j < s.cur.len :: List(s)[j].key != a.key)
    && (s.writer.Appending? ==>
          s.writer.a.key != a.key && (s.writer.slot.arr == s.cur.arr || s.writer.slot.arr != s.reader.s.arr))
    && (s.reader.pos > 0 ==> a in s.reader.got)
  }

  lemma StepKeepsFirst(s: State, x: Label, a: Address)
    requires WellFormed(s) && Enabled(s, x) && IsFirst(s, a)
    requires WellFormed(Step(s, x)) && a in List(Step(s, x))
    ensures IsFirst(Step(s, x), a)
  {
    match x {
      case Publish => PublishKeepsFirst(s, a);
      case DeleteStep => DeleteStepKeepsFirst(s, a);
      case Overwrite(i, b) => assert List(Step(s, x)) == List(s)[i := b];
      case AppendInPlace(b) => assert List(Step(s, x)) == List(s);
      case AppendGrow(b, arr, spare) => assert List(Step(s, x)) == List(s);
      case _ =>
    }
  }

  lemma PublishKeepsFirst(s: State, a: Address)
    requires WellFormed(s) && Enabled(s, Publish) && IsFirst(s, a)
    requires WellFormed(Step(s, Publish)) && a in List(Step(s, Publish))
    ensures IsFirst(Step(s, Publish), a)
  {
    var l' := List(Step(s, Publish));
    if s.writer.Appending? {
      assert l' == List(s) + [s.writer.a];
    } else {
      assert l' == List(s)[..s.writer.len];
    }
  }

  /** A shift that would write the first cell takes `a` out of the list. */
  lemma DeleteStepKeepsFirst(s: State, a: Address)
    requires WellFormed(s) && Enabled(s, DeleteStep) && IsFirst(s, a)
    requires WellFormed(Step(s, DeleteStep)) && a in List(Step(s, DeleteStep))
    ensures IsFirst(Step(s, DeleteStep), a)
  {
    var l, l' := List(s), List(Step(s, DeleteStep));
    if s.writer.Shifting? && s.writer.p + 1 < s.writer.len {
      assert l' == l[s.writer.p := l[s.writer.p + 1]];
    } else {
      assert l' == l;
    }
  }

  lemma {:induction false} RunKeepsFirst(s: State, run: seq<Label>, a: Address)
    requires WellFormed(s) && ValidRun(s, run) && IsFirst(s, a) && PresentDuring(s, run, a)
    ensures IsFirst(Exec(s, run), a)
    decreases |run|
  {
    if run != [] {
      StepKeepsWellFormed(s, run[0]);
      PresentAtStart(Step(s, run[0]), run[1..], a);
      StepKeepsFirst(s, run[0], a);
      RunKeepsFirst(Step(s, run[0]), run[1..], a);
    }
  }

  // ----- every other entry -----

  /** What can be missed after a step can be missed before it. */
  lemma MissedAfterStep(s: State, x: Label, s': State, a: Address)
    requires WellFormed(s) && Enabled(s, x) && s' == Step(s, x) && a in List(s)
    requires WellFormed(s') && CanMiss(s', a)
    ensures CanMiss(s, a)
  {
    var rest :| MissedIn(s', rest, a);
    assert ([x] + rest)[1..] == rest;
    assert MissedIn(s, [x] + rest, a);
  }

  /** Reading up to index `i`. */
  lemma {:induction false} MissedAfterReads(s: State, i: nat, a: Address)
    requires WellFormed(s) && s.reader.Scanning? && s.reader.pos <= i <= s.reader.s.len && a in List(s)
    requires var r := s.reader;
             var s' := s.(reader := Scanning(r.s, i, r.got + s.heap[r.s.arr][r.pos..i]));
             WellFormed(s') && CanMiss(s', a)
    ensures CanMiss(s, a)
    decreases i - s.reader.pos
  {
    var r := s.reader;
    if r.pos == i {
      assert r.got + s.heap[r.s.arr][r.pos..i] == r.got;
    } else {
      var s1 := Step(s, Read);
      assert s1.reader.got + s.heap[r.s.arr][r.pos + 1..i] == r.got + s.heap[r.s.arr][r.pos..i];
      MissedAfterReads(s1, i, a);
      MissedAfterStep(s, Read, s1, a);
    }
  }

  /** Reading to the end when none of the cells left is `a`. */
  lemma ReadingOnMisses(s: State, a: Address)
    requires WellFormed(s) && s.reader.Scanning? && a in List(s) && a !in s.reader.got
    requires a !in s.heap[s.reader.s.arr][s.reader.pos..s.reader.s.len]
    ensures CanMiss(s, a)
  {
    var r := s.reader;
    var end := s.(reader := Scanning(r.s, r.s.len, r.got + s.heap[r.s.arr][r.pos..r.s.len]));
    assert MissedIn(end, [], a);
    MissedAfterReads(s, r.s.len, a);
  }

  /** A deletion that finds its key no more publishes. */
  lemma {:induction false} MissedAfterComparing(s: State, a: Address)
    requires WellFormed(s) && s.writer.Deleting? && a in List(s)
    requires forall k | s.writer.i <= k < s.writer.len :: s.heap[s.cur.arr][k].key != s.writer.key
    requires var s' := s.(cur := Slice(s.cur.arr, s.writer.len), writer := Idle);
             WellFormed(s') && CanMiss(s', a)
    ensures CanMiss(s, a)
    decreases s.writer.len - s.writer.i
  {
    if s.writer.i < s.writer.len {
      MissedAfterComparing(Step(s, DeleteStep), a);
      MissedAfterStep(s, DeleteStep, Step(s, DeleteStep), a);
    } else {
      MissedAfterStep(s, Publish, Step(s, Publish), a);
    }
  }

  /** The cells once everything between `p` and `len` has moved down; the last one stays as it was. */
  function Shifted(cells: seq<Address>, p: nat, len: nat): seq<Address>
    requires p < len <= |cells|
  {
    cells[..p] + cells[p + 1..len] + cells[len - 1..]
  }

  lemma ShiftStep(cells: seq<Address>, p: nat, len: nat)
    requires p < len <= |cells|
    ensures p + 1 == len ==> Shifted(cells, p, len) == cells
    ensures p + 1 < len ==>
              var next := cells[p := cells[p + 1]];
              && Shifted(next, p + 1, len) == Shifted(cells, p, len)
              && next[..p + 1] + next[p + 2..len] == cells[..p] + cells[p + 1..len]
  {
    ShiftingKeepsAim(cells, p, len);
  }

  /** One step of a shift: the state it leads to, from where the cells end up the same. */
  lemma ShiftLeadsOn(s: State, cells: seq<Address>)
    requires WellFormed(s) && s.writer.Shifting? && cells == s.heap[s.cur.arr]
    ensures var w, s1 := s.writer, Step(s, DeleteStep);
            && WellFormed(s1) && (forall a :: a in cells[..w.p] + cells[w.p + 1..w.len] ==> a in List(s))
            && s1 == if w.p + 1 == w.len then s.(writer := Deleting(w.key, w.i + 1, w.len - 1))
                     else s.(heap := s.heap[s.cur.arr := cells[w.p := cells[w.p + 1]]],
                             writer := Shifting(w.key, w.i, w.len, w.p + 1))
  {
    StepKeepsWellFormed(s, DeleteStep);
  }

  lemma {:induction false} MissedAfterShifting(s: State, cells: seq<Address>, s': State, a: Address)
    requires WellFormed(s) && s.writer.Shifting? && cells == s.heap[s.cur.arr]
    requires a in cells[..s.writer.p] + cells[s.writer.p + 1..s.writer.len]
    requires s' == s.(heap := s.heap[s.cur.arr := Shifted(cells, s.writer.p, s.writer.len)],
                      writer := Deleting(s.writer.key, s.writer.i + 1, s.writer.len - 1))
    requires WellFormed(s') && CanMiss(s', a)
    ensures CanMiss(s, a)
    decreases s.writer.len - s.writer.p
  {
    hide CanMiss, Shifted, List;
    var w, s1 := s.writer, Step(s, DeleteStep);
    ShiftStep(cells, w.p, w.len);
    ShiftLeadsOn(s, cells);
    if w.p + 1 == w.len {
      assert s.heap[s.cur.arr := cells] == s.heap;
    } else {
      var next := cells[w.p := cells[w.p + 1]];
      UpdatedTwice(s.heap, s.cur.arr, next, Shifted(cells, w.p, w.len));
      MissedAfterShifting(s1, next, s', a);
    }
    MissedAfterStep(s, DeleteStep, s1, a);
  }

  lemma UpdatedTwice(heap: map<nat, seq<Address>>, arr: nat, x: seq<Address>, y: seq<Address>)
    ensures heap[arr := x][arr := y] == heap[arr := y]
  {
  }

  /** The cells after a removal of the first entry. */
  lemma CellsAfterRemoving(before: seq<Address>, n: nat, cells: seq<Address>)
    requires 0 < n <= |before| && cells == Shifted(before, 0, n)
    ensures |cells| == |before| && cells[..n - 1] == before[..n][1..]
    ensures forall k | 0 <= k < n - 1 :: cells[k] == before[k + 1]
  {
  }

  /** Starting to delete the first entry and finding it. */
  lemma MissedAfterFinding(s: State, key: string, a: Address)
    requires WellFormed(s) && s.writer.Idle? && s.cur.len > 0 && List(s)[0].key == key && a in List(s)
    requires var s' := s.(writer := Shifting(key, 0, s.cur.len, 0)); WellFormed(s') && CanMiss(s', a)
    ensures CanMiss(s, a)
  {
    hide CanMiss;
    var deleting := s.(writer := Deleting(key, 0, s.cur.len));
    MissedAfterStep(deleting, DeleteStep, s.(writer := Shifting(key, 0, s.cur.len, 0)), a);
    MissedAfterStep(s, StartDelete(key), deleting, a);
  }

  lemma KeyIsGone(before: seq<Address>, n: nat, cells: seq<Address>)
    requires 0 < n <= |before| && UniqueKeys(before[..n]) && cells == Shifted(before, 0, n)
    ensures |cells| == |before|
    ensures forall k | 0 <= k < n - 1 :: cells[k].key != before[0].key
    ensures forall a | a in before[..n][1..] :: a in cells[..n]
  {
    hide Shifted;
    CellsAfterRemoving(before, n, cells);
    forall k | 0 <= k < n - 1
      ensures cells[k].key != before[0].key
    {
      assert before[..n][0].key != before[..n][k + 1].key;
    }
    PrefixMembers(cells, n - 1, n);
  }

  lemma PrefixMembers(cells: seq<Address>, m: nat, n: nat)
    requires m <= n <= |cells|
    ensures forall a | a in cells[..m] :: a in cells[..n]
  {
    assert cells[..n] == cells[..m] + cells[m..n];
  }

  /** What the shift leaves holds the deleted key no more. */
  lemma ComparingAfterRemoval(s: State, key: string, a: Address, cells: seq<Address>, comparing: State)
    requires WellFormed(s) && s.writer.Idle? && s.cur.len > 0 && UniqueKeys(List(s)) && a in List(s)[1..]
    requires key == List(s)[0].key && cells == Shifted(s.heap[s.cur.arr], 0, s.cur.len)
    requires comparing == s.(heap := s.heap[s.cur.arr := cells], writer := Deleting(key, 1, s.cur.len - 1))
    requires var s' := s.(heap := s.heap[s.cur.arr := cells], cur := Slice(s.cur.arr, s.cur.len - 1));
             WellFormed(s') && CanMiss(s', a)
    ensures WellFormed(comparing) && CanMiss(comparing, a)
  {
    hide CanMiss, UniqueKeys, Shifted;
    KeyIsGone(s.heap[s.cur.arr], s.cur.len, cells);
    MissedAfterComparing(comparing, a);
  }

  /** Removing the first entry, with `cells` what it leaves in the array. */
  lemma MissedAfterRemoving(s: State, a: Address, cells: seq<Address>)
    requires WellFormed(s) && s.writer.Idle? && s.cur.len > 0 && UniqueKeys(List(s)) && a in List(s)[1..]
    requires cells == Shifted(s.heap[s.cur.arr], 0, s.cur.len)
    requires var s' := s.(heap := s.heap[s.cur.arr := cells], cur := Slice(s.cur.arr, s.cur.len - 1));
             WellFormed(s') && CanMiss(s', a)
    ensures CanMiss(s, a)
  {
    hide CanMiss, UniqueKeys;
    var n, key := s.cur.len, List(s)[0].key;
    var comparing := s.(heap := s.heap[s.cur.arr := cells], writer := Deleting(key, 1, n - 1));
    ComparingAfterRemoval(s, key, a, cells, comparing);
    assert s.heap[s.cur.arr][..0] + s.heap[s.cur.arr][1..n] == List(s)[1..];
    MissedAfterShifting(s.(writer := Shifting(key, 0, n, 0)), s.heap[s.cur.arr], comparing, a);
    MissedAfterFinding(s, key, a);
  }

  lemma RestAfterRemoving(l: seq<Address>, i: nat)
    requires UniqueKeys(l) && 0 < i < |l|
    ensures l[i] in l[1..] && l[i] != l[0] && !HasKey(l[1..], l[0].key)
    ensures l[i] !in l[..i] && l[i] !in l[1..][i..]
  {
    assert l[1..][i - 1] == l[i];
  }

  /** Adding `b` in the freed place after a scan has passed `a`. */
  lemma AddingAgainMisses(s: State, b: Address, a: Address)
    requires WellFormed(s) && Enabled(s, AppendInPlace(b)) && a in List(s) && a != b
    requires s.reader.Scanning? && s.reader.s == Slice(s.cur.arr, s.cur.len + 1) && a !in s.reader.got
    requires s.reader.pos <= s.cur.len && a !in List(s)[s.reader.pos..]
    ensures CanMiss(s, a)
  {
    var added := Step(s, AppendInPlace(b));
    assert List(added) == List(s);
    assert added.heap[s.cur.arr][s.reader.pos..s.cur.len + 1] == List(s)[s.reader.pos..] + [b];
    ReadingOnMisses(added, a);
    MissedAfterStep(s, AppendInPlace(b), added, a);
  }

  /** A scan that has passed `i` entries misses entry `i` when the first one is deleted and added again. */
  lemma LaterEntriesAreMissed(s: State, i: nat)
    requires WellFormed(s) && s.writer.Idle? && UniqueKeys(List(s)) && 0 < i < s.cur.len
    requires s.reader == Scanning(s.cur, i, List(s)[..i])
    ensures CanMiss(s, List(s)[i])
  {
    var cells := Shifted(s.heap[s.cur.arr], 0, s.cur.len);
    CellsAfterRemoving(s.heap[s.cur.arr], s.cur.len, cells);
    var removed := s.(heap := s.heap[s.cur.arr := cells], cur := Slice(s.cur.arr, s.cur.len - 1));
    RestAfterRemoving(List(s), i);
    assert List(removed) == List(s)[1..];
    AddingAgainMisses(removed, List(s)[0], List(s)[i]);
    MissedAfterRemoving(s, List(s)[i], cells);
  }

  /** A lookup that starts now can miss an entry that stays in the list exactly when the entry is not the first:
      every later one is missed when the first is deleted and added again behind the scan's back. */
  lemma CanMissIff(s: State, i: nat)
    requires WellFormed(s) && Enabled(s, Begin) && UniqueKeys(List(s)) && i < |List(s)|
    ensures WellFormed(Step(s, Begin)) && (CanMiss(Step(s, Begin), List(s)[i]) <==> i > 0)
  {
    var s0, a := Step(s, Begin), List(s)[i];
    assert List(s0) == List(s);
    if i == 0 {
      assert IsFirst(s0, a);
      forall run | ValidRun(s0, run) && PresentDuring(s0, run, a)
        ensures !MissedIn(s0, run, a)
      {
        RunKeepsFirst(s0, run, a);
      }
    } else {
      var begun := s0.(reader := Scanning(s.cur, i, List(s)[..i]));
      assert [] + s.heap[s.cur.arr][0..i] == List(s)[..i];
      assert List(begun) == List(s);
      LaterEntriesAreMissed(begun, i);
      MissedAfterReads(s0, i, a);
    }
  }
}
